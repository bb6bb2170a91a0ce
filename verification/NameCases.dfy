/** Output names on inputs taken apart: what src/commands/mod.rs does to names, told from outside. */
module NameCases {
  import opened Outcomes
  import opened Text
  import opened FileNames
  import opened WatchFilter
  import opened FilterCases
  import opened OutputNames

  // Safe names, by the characters themselves.

  const DEVICES: set<string> := {
    "CON", "PRN", "AUX", "NUL",
    "COM1", "COM2", "COM3", "COM4", "COM5", "COM6", "COM7", "COM8", "COM9",
    "LPT1", "LPT2", "LPT3", "LPT4", "LPT5", "LPT6", "LPT7", "LPT8", "LPT9"}

  predicate Harmless(ch: char) {
    32 <= ch as nat && !(127 <= ch as nat <= 159) && ch !in "/\\:*?\"<>|"
  }

  predicate Edge(ch: char) {
    ch == '.' || ch in SPACES
  }

  predicate Portable(name: string) {
    && name != "" && (forall ch :: ch in name ==> Harmless(ch))
    && !Edge(name[0]) && !Edge(name[|name| - 1])
    && Upper(Stem(name)) !in DEVICES
  }

  lemma EdgeExactly(ch: char)
    ensures IsEdge(ch) <==> Edge(ch)
  {
    hide IsWhitespace;
    WhitespaceExactly(ch);
  }

  lemma HarmlessExactly(ch: char)
    ensures Harmless(ch) <==> !IsControl(ch) && !IsForbidden(ch)
  {
  }

  lemma DevicesExactly(s: string)
    ensures s in DEVICES <==> s in RESERVED
  {
  }

  /** Upper case, letter by letter: only the 26 small ones of ASCII change. */
  lemma {:induction false} UpperAt(s: string, i: nat)
    requires i < |s|
    ensures Upper(s)[i] as nat == if 97 <= s[i] as nat <= 122 then s[i] as nat - 32 else s[i] as nat
  {
    if i > 0 {
      UpperAt(s[1..], i - 1);
    }
  }

  lemma PortableExactly(name: string)
    ensures Safe(name) <==> Portable(name)
  {
    hide IsControl, IsForbidden, IsEdge, Harmless, Edge, Upper, Stem;
    forall ch
      ensures Harmless(ch) <==> !IsControl(ch) && !IsForbidden(ch)
    {
      HarmlessExactly(ch);
    }
    if name != "" {
      EdgeExactly(name[0]);
      EdgeExactly(name[|name| - 1]);
    }
    DevicesExactly(Upper(Stem(name)));
  }

  /** Every sanitised name is portable, and exactly the portable names are kept. */
  lemma SanitizeIsPortable(raw: string)
    ensures Portable(Sanitize(raw))
    ensures Sanitize(raw) == raw <==> Portable(raw)
  {
    hide Sanitize, Portable, Safe;
    SanitizedIsSafe(raw);
    SanitizeKeepsExactlySafe(raw);
    PortableExactly(raw);
    PortableExactly(Sanitize(raw));
  }

  // What sanitising drops, and what it gives up on.

  /**
   The last component of a path. Slashes and steps to the same folder behind it do not count, and a step to the folder
   above has none.
   */
  lemma LastComponentIs(dir: string, name: string)
    requires '/' !in name
    ensures FileName(dir + "/" + name)
         == if name == "" || name == "." then FileName(dir) else if name == ".." then "" else name
  {
    LastAtIs(dir, '/', name);
    var s := dir + "/" + name;
    assert s[|dir| + 1..] == name && s[..|dir|] == dir;
  }

  lemma OnlyComponentIs(name: string)
    requires '/' !in name
    ensures FileName(name) == if name == "." || name == ".." then "" else name
  {
  }

  /** A control character anywhere makes no difference. */
  lemma ControlsAreDropped(a: string, ch: char, b: string)
    requires (ch as nat) < 32 || 127 <= ch as nat <= 159
    ensures Sanitize(a + [ch] + b) == Sanitize(a + b)
  {
    hide Trimmed, FileName, ForwardSlashes, IsReserved, IsControl;
    assert IsControl(ch) by {
      ControlsAre(ch);
    }
    FilteredConcat(a + [ch], b);
    FilteredConcat(a, [ch]);
    FilteredConcat(a, b);
    assert Filtered([ch]) == [] + Filtered([]);
    assert Filtered(a) + [] == Filtered(a);
  }

  lemma ControlsAre(ch: char)
    requires (ch as nat) < 32 || 127 <= ch as nat <= 159
    ensures IsControl(ch)
  {
  }

  /** Spaces and dots around a portable name are dropped. */
  lemma EdgesAreDropped(front: string, name: string, back: string)
    requires Portable(name) && AllOf(front, Edge) && AllOf(back, Edge)
    ensures Sanitize(front + name + back) == name
  {
    hide IsControl, IsReserved, IsForbidden, Portable, Edge, IsWhitespace, Filtered, ForwardSlashes, FileName, Trimmed,
         Stem;
    PortableExactly(name);
    SafeNamesAreWhole(name);
    var f, b := Filtered(front), Filtered(back);
    EdgesStay(front);
    EdgesStay(back);
    FilteredConcat(front + name, back);
    FilteredConcat(front, name);
    NothingFiltered(name);
    var s := f + name + b;
    TrimmedApart(f, name, b);
    NoSlashes(s);
  }

  lemma EdgesStay(s: string)
    requires AllOf(s, Edge)
    ensures AllOf(Filtered(s), IsEdge) && '/' !in Filtered(s) && '\\' !in Filtered(s)
  {
    hide IsControl, Edge, IsEdge, Filtered;
    var f := Filtered(s);
    SlashesAreNoEdges();
    forall ch | ch in f
      ensures Edge(ch) && IsEdge(ch)
    {
      assert ch in s;
      EdgeExactly(ch);
    }
  }

  lemma SlashesAreNoEdges()
    ensures !Edge('/') && !Edge('\\')
  {
  }

  lemma NoSlashes(s: string)
    requires '/' !in s && '\\' !in s && s != "." && s != ".."
    ensures FileName(ForwardSlashes(s)) == s
  {
    assert ForwardSlashes(s) == s;
  }

  lemma TrimmedApart(f: string, name: string, b: string)
    requires AllOf(f, IsEdge) && AllOf(b, IsEdge) && name != "" && !IsEdge(name[0]) && !IsEdge(name[|name| - 1])
    ensures Trimmed(f + name + b) == name && f + name + b != "." && f + name + b != ".."
  {
    hide IsWhitespace;
    var s := f + name + b;
    assert s == f + (name + b) && (name + b)[0] == name[0];
    StartTrimmed(f, name + b, IsEdge);
    EndTrimmed(name, b, IsEdge);
    assert s[|f|] == name[0] && IsEdge('.');
  }

  /** A name with a forbidden character, other than a separator, is given up for the fallback. */
  lemma ForbiddenFallsBack(a: string, ch: char, b: string)
    requires ch in ":*?\"<>|"
    requires '/' !in a && '\\' !in a && '/' !in b && '\\' !in b
    ensures Sanitize(a + [ch] + b) == "recovered_file.bin"
  {
    hide IsControl, IsReserved, IsEdge, Filtered, ForwardSlashes, FileName, Trimmed;
    ForbiddenIs(ch);
    var s := Filtered(a + [ch] + b);
    assert ch in a + [ch] + b;
    assert ch in s && '/' !in s && '\\' !in s && ch != '.';
    assert s != "." && s != "..";
    NoSlashes(s);
    TrimKeeps(s, ch);
  }

  lemma ForbiddenIs(ch: char)
    requires ch in ":*?\"<>|"
    ensures IsForbidden(ch) && !IsControl(ch) && !IsEdge(ch) && ch != '/' && ch != '\\' && ch != '.'
  {
  }

  lemma TrimKeeps(s: string, ch: char)
    requires ch in s && !IsEdge(ch)
    ensures ch in Trimmed(s)
  {
    hide IsEdge;
    StartKeeps(s, ch);
    EndKeeps(TrimStart(s, IsEdge), ch);
  }

  lemma {:induction false} StartKeeps(s: string, ch: char)
    requires ch in s && !IsEdge(ch)
    ensures ch in TrimStart(s, IsEdge)
  {
    if IsEdge(s[0]) {
      StartKeeps(s[1..], ch);
    }
  }

  lemma {:induction false} EndKeeps(s: string, ch: char)
    requires ch in s && !IsEdge(ch)
    ensures ch in TrimEnd(s, IsEdge)
  {
    if IsEdge(s[|s| - 1]) {
      EndKeeps(s[..|s| - 1], ch);
    }
  }

  /** The name of a device, in any case and with any extension behind its last dot, is reserved; others are not. */
  lemma DevicesAreReserved(stem: string, ext: string)
    requires stem != "" && '.' !in ext
    ensures IsReserved(stem + "." + ext) <==> Upper(stem) in DEVICES
    ensures '.' !in stem ==> (IsReserved(stem) <==> Upper(stem) in DEVICES)
  {
    hide Upper;
    Split(stem, ext);
    DevicesExactly(Upper(stem));
  }

  // Alternatives to a taken name.

  /** The number goes in front of the extension. */
  lemma CandidateIs(stem: string, ext: string, n: nat)
    requires stem != "" && '.' !in ext
    ensures Candidate(stem + "." + ext, n) == stem + " (" + Decimal(n) + ")" + ("." + ext)
    ensures '.' !in stem ==> Candidate(stem, n) == stem + " (" + Decimal(n) + ")"
  {
    hide Decimal;
    Split(stem, ext);
  }
}
