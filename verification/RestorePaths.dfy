/** Where a restored file lands: the join of the restore folder and a recorded path in src/backup/mod.rs. */
module RestorePaths {
  import opened Outcomes
  import opened FileNames
  import opened Backup
  import opened BackupRoundTrip

  /** The components of a recorded path, empty ones included. */
  function Components(s: string): seq<string>
    decreases |s|
  {
    var head := UpToSlash(s);
    HeadFits(s);
    if |head| == |s| then [s] else [head] + Components(s[|head| + 1..])
  }

  lemma {:induction false} HeadFits(s: string)
    ensures UpToSlash(s) <= s && (|UpToSlash(s)| < |s| ==> s[|UpToSlash(s)|] == '/')
  {
    if s != [] && s[0] != '/' {
      HeadFits(s[1..]);
    }
  }

  /** Goes down a path from a place below the restore folder; None once it leaves the folder. */
  function Walk(parts: seq<string>, at: Path): Option<Path>
    decreases |parts|
  {
    if parts == [] then Some(at)
    else if parts[0] == "" || parts[0] == "." then Walk(parts[1..], at)
    else if parts[0] == ".." then if at == [] then None else Walk(parts[1..], at[..|at| - 1])
    else Walk(parts[1..], at + [parts[0]])
  }

  /** Where a recorded path lands below the restore folder; an absolute one replaces the folder. */
  function Landing(recorded: string): Option<Path> {
    if recorded != [] && recorded[0] == '/' then None else Walk(Components(recorded), [])
  }

  // When it stays below.

  function Depth(part: string): int {
    if part == "" || part == "." then 0 else if part == ".." then -1 else 1
  }

  function Depths(parts: seq<string>): int {
    if parts == [] then 0 else Depths(parts[..|parts| - 1]) + Depth(parts[|parts| - 1])
  }

  /** No beginning of the path goes up more often than down. */
  predicate NeverAbove(parts: seq<string>, depth: nat) {
    forall k :: 0 <= k <= |parts| ==> depth + Depths(parts[..k]) >= 0
  }

  lemma {:induction false} DepthsUnfold(parts: seq<string>)
    requires parts != []
    ensures Depths(parts) == Depth(parts[0]) + Depths(parts[1..])
    decreases |parts|
  {
    hide Depth;
    if |parts| > 1 {
      var front := parts[..|parts| - 1];
      DepthsUnfold(front);
      assert front[1..] == parts[1..][..|parts| - 2];
    }
  }

  lemma NeverAboveUnfolds(parts: seq<string>, depth: nat)
    requires parts != []
    ensures NeverAbove(parts, depth)
            <==> depth + Depth(parts[0]) >= 0 && NeverAbove(parts[1..], depth + Depth(parts[0]))
  {
    hide Depth, Depths;
    var d := depth + Depth(parts[0]);
    forall k | 0 < k <= |parts|
      ensures Depths(parts[..k]) == Depth(parts[0]) + Depths(parts[1..][..k - 1])
    {
      DepthsUnfold(parts[..k]);
      assert parts[..k][1..] == parts[1..][..k - 1];
    }
    NothingDeep();
    if NeverAbove(parts, depth) {
      assert depth + Depths(parts[..1]) >= 0;
      assert parts[1..][..0] == [];
      forall k | 0 <= k < |parts|
        ensures d + Depths(parts[1..][..k]) >= 0
      {
        assert depth + Depths(parts[..k + 1]) >= 0;
      }
    }
    if d >= 0 && NeverAbove(parts[1..], d) {
      forall k | 0 <= k <= |parts|
        ensures depth + Depths(parts[..k]) >= 0
      {
        if k > 0 {
          assert d + Depths(parts[1..][..k - 1]) >= 0;
        } else {
          assert parts[..0] == [];
        }
      }
    }
  }

  lemma NothingDeep()
    ensures Depths([]) == 0
  {
  }

  lemma {:induction false} WalkStays(parts: seq<string>, at: Path)
    ensures Walk(parts, at).Some? <==> NeverAbove(parts, |at|)
    decreases |parts|
  {
    hide NeverAbove;
    if parts == [] {
      NowhereToGo(|at|);
    } else {
      NeverAboveUnfolds(parts, |at|);
      if parts[0] == "" || parts[0] == "." {
        WalkStays(parts[1..], at);
      } else if parts[0] != ".." {
        WalkStays(parts[1..], at + [parts[0]]);
      } else if at != [] {
        WalkStays(parts[1..], at[..|at| - 1]);
      }
    }
  }

  lemma NowhereToGo(depth: nat)
    ensures NeverAbove([], depth)
  {
    NothingDeep();
    var none: seq<string> := [];
    assert none[..0] == none;
  }

  /** A recorded path stays below the restore folder exactly when it is relative and never goes up too often. */
  lemma StaysBelowExactly(recorded: string)
    ensures Landing(recorded).Some? <==> !("/" <= recorded) && NeverAbove(Components(recorded), 0)
  {
    hide NeverAbove, Components;
    WalkStays(Components(recorded), []);
  }

  // The recorded paths of a tree.

  /** A path as the system lists it: no component is a step to the same folder or to the one above. */
  predicate Listed(p: Path) {
    ProperPath(p) && forall i :: 0 <= i < |p| ==> p[i] != "." && p[i] != ".."
  }

  lemma {:induction false} ComponentsOfPath(p: Path)
    requires ProperPath(p)
    ensures Components(Slashed(p)) == p
    decreases |p|
  {
    hide Slashed, UpToSlash, ProperName;
    SlashedHead(p);
    SlashedUnfolds(p);
    if |p| == 1 {
      assert Components(p[0]) == [p[0]];
    } else {
      ComponentsOfPath(p[1..]);
      assert Slashed(p)[|p[0]| + 1..] == Slashed(p[1..]);
      assert Components(Slashed(p)) == [p[0]] + p[1..];
    }
  }

  lemma {:induction false} WalkDown(parts: Path, at: Path)
    requires forall i :: 0 <= i < |parts| ==> parts[i] != "" && parts[i] != "." && parts[i] != ".."
    ensures Walk(parts, at) == Some(at + parts)
    decreases |parts|
  {
    if parts == [] {
      assert at + parts == at;
    } else {
      WalkDown(parts[1..], at + [parts[0]]);
      assert at + [parts[0]] + parts[1..] == at + parts;
    }
  }

  lemma RelativeIsNotAbsolute(p: Path)
    requires ProperPath(p)
    ensures Slashed(p) != [] && Slashed(p)[0] != '/'
  {
    hide Slashed;
    SlashedUnfolds(p);
    assert ProperName(p[0]);
    assert Slashed(p)[0] == p[0][0] && p[0][0] in p[0];
  }

  lemma {:induction false} WalkNames(parts: seq<string>, at: Path)
    requires Walk(parts, at).Some?
    ensures forall name :: name in Walk(parts, at).value ==> name in at || name in parts
    decreases |parts|
  {
    if parts != [] {
      if parts[0] == "" || parts[0] == "." {
        WalkNames(parts[1..], at);
      } else if parts[0] == ".." {
        WalkNames(parts[1..], at[..|at| - 1]);
      } else {
        WalkNames(parts[1..], at + [parts[0]]);
      }
    }
  }

  lemma {:induction false} ComponentsHold(s: string, c: char)
    requires c !in s
    ensures forall part :: part in Components(s) ==> c !in part
    decreases |s|
  {
    hide UpToSlash;
    var head := UpToSlash(s);
    HeadFits(s);
    assert c !in head;
    if |head| < |s| {
      ComponentsHold(s[|head| + 1..], c);
    }
  }

  /** A listed file is restored at its own path if and only if that path holds no backslash. */
  lemma LandsInPlaceExactly(p: Path)
    requires Listed(p)
    ensures Landing(RelativeName(p)) == Some(p) <==> BackslashFree(p)
  {
    hide RelativeName, Slashed, Components, Walk, ProperName, BackslashFree;
    RecordedHasNoBackslash(p);
    if BackslashFree(p) {
      RelativeIsNotAbsolute(p);
      ComponentsOfPath(p);
      assert forall i :: 0 <= i < |p| ==> ProperName(p[i]);
      ListedIsDown(p);
      WalkDown(p, []);
      assert [] + p == p;
    }
    if Landing(RelativeName(p)) == Some(p) {
      WalkNames(Components(RelativeName(p)), []);
      ComponentsHold(RelativeName(p), '\\');
      NoneHolds(p);
    }
  }

  lemma ListedIsDown(p: Path)
    requires Listed(p)
    ensures forall i :: 0 <= i < |p| ==> p[i] != "" && p[i] != "." && p[i] != ".."
  {
    assert forall i :: 0 <= i < |p| ==> ProperName(p[i]);
  }

  lemma NoneHolds(p: Path)
    requires forall name :: name in p ==> '\\' !in name
    ensures BackslashFree(p)
  {
  }

  /** So a backup of a folder without backslashes restores every file below the restore folder, where it was. */
  lemma RestoresInPlace(source: Forest)
    requires Proper(source)
    requires forall f :: f in Collected(source, []) ==> Listed(f.path)
    ensures (forall f :: f in Collected(source, []) ==> Landing(RelativeName(f.path)) == Some(f.path))
            <==> NoBackslashes(Collected(source, []))
  {
    hide Collected, Listed, Landing, RelativeName, BackslashFree, Proper;
    forall f | f in Collected(source, [])
      ensures Landing(RelativeName(f.path)) == Some(f.path) <==> BackslashFree(f.path)
    {
      LandsInPlaceExactly(f.path);
    }
  }

  const ABSOLUTE_NAME: string := "\\etc\\x"
  const CLIMBING_NAME: string := "..\\x"

  /** Names that a folder may hold and that land elsewhere: one is recorded as an absolute path, */
  lemma AbsoluteNameLeaves()
    ensures Listed([ABSOLUTE_NAME]) && RelativeName([ABSOLUTE_NAME]) == "/etc/x" && Landing("/etc/x") == None
  {
    hide Walk, Components;
    assert ProperName(ABSOLUTE_NAME) && |ABSOLUTE_NAME| == 6;
    assert Slashed([ABSOLUTE_NAME]) == ABSOLUTE_NAME;
    assert ForwardSlashes(ABSOLUTE_NAME) == "/etc/x";
  }

  /** and one as a path that goes up. */
  lemma ClimbingNameLeaves()
    ensures Listed([CLIMBING_NAME]) && RelativeName([CLIMBING_NAME]) == "../x" && Landing("../x") == None
  {
    hide UpToSlash;
    assert ProperName(CLIMBING_NAME) && |CLIMBING_NAME| == 4;
    assert Slashed([CLIMBING_NAME]) == CLIMBING_NAME;
    assert ForwardSlashes(CLIMBING_NAME) == "../x";
    UpToSlashIs("..", "/x");
    assert ".." + "/x" == "../x";
    assert Components("../x")[0] == "..";
  }
}
