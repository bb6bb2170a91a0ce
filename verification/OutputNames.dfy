/** Names for output files, and the chunk size of the encrypt command: src/commands/mod.rs. */
module OutputNames {
  import opened BigEndian
  import opened Outcomes
  import opened Wraith
  import opened Encryptor
  import opened Text
  import opened FileNames
  import opened WatchFilter

  const FALLBACK: string := "recovered_file.bin"

  /** The Unicode control characters. */
  predicate IsControl(ch: char) {
    var n := ch as nat;
    n < 0x20 || 0x7F <= n <= 0x9F
  }

  function Filtered(s: string): (r: string)
    ensures forall ch :: ch in r <==> ch in s && !IsControl(ch)
  {
    if s == [] then [] else (if IsControl(s[0]) then [] else [s[0]]) + Filtered(s[1..])
  }

  /** The last component of a path; empty components and single dots do not count, and there is none after "..". */
  function FileName(s: string): (r: string)
    ensures '/' !in r && forall ch :: ch in r ==> ch in s
    decreases |s|
  {
    match LastAt(s, '/')
    case None => if s == "." || s == ".." then "" else s
    case Some(i) =>
      var last := s[i + 1..];
      if last == "" || last == "." then FileName(s[..i])
      else if last == ".." then ""
      else last
  }

  predicate IsEdge(ch: char) {
    IsWhitespace(ch) || ch == '.'
  }

  function Trimmed(s: string): string {
    TrimEnd(TrimStart(s, IsEdge), IsEdge)
  }

  predicate IsForbidden(ch: char) {
    ch in "/\\:*?\"<>|"
  }

  function UpperChar(ch: char): char {
    if 'a' <= ch <= 'z' then ch - 'a' + 'A' else ch
  }

  function Upper(s: string): (r: string)
    ensures |r| == |s|
  {
    if s == [] then [] else [UpperChar(s[0])] + Upper(s[1..])
  }

  const RESERVED: seq<string> := [
    "CON", "PRN", "AUX", "NUL",
    "COM1", "COM2", "COM3", "COM4", "COM5", "COM6", "COM7", "COM8", "COM9",
    "LPT1", "LPT2", "LPT3", "LPT4", "LPT5", "LPT6", "LPT7", "LPT8", "LPT9"]

  /** Whether the part of a name before its last dot is a device name. */
  predicate IsReserved(name: string) {
    Upper(Stem(name)) in RESERVED
  }

  function Sanitize(raw: string): string {
    var name := Trimmed(FileName(ForwardSlashes(Filtered(raw))));
    if name == "" || (exists ch | ch in name :: IsForbidden(ch)) || IsReserved(name) then FALLBACK else name
  }

  /**
   One component without separators, control characters, edge dots or spaces, and whose part before the last dot is
   no device name. (A device name before the first dot, as in NUL.tar.gz, is not looked for.)
   */
  predicate Safe(name: string) {
    && name != ""
    && (forall ch :: ch in name ==> !IsControl(ch) && !IsForbidden(ch))
    && !IsEdge(name[0]) && !IsEdge(name[|name| - 1])
    && !IsReserved(name)
  }

  lemma {:induction false} TrimStartTrims(s: string)
    ensures var r := TrimStart(s, IsEdge);
            && (r != [] ==> !IsEdge(r[0]) && s != [] && r[|r| - 1] == s[|s| - 1])
            && forall ch :: ch in r ==> ch in s
  {
    if s != [] && IsEdge(s[0]) {
      TrimStartTrims(s[1..]);
    }
  }

  lemma {:induction false} TrimEndTrims(s: string)
    ensures var r := TrimEnd(s, IsEdge);
            && (r != [] ==> !IsEdge(r[|r| - 1]) && s != [] && r[0] == s[0])
            && forall ch :: ch in r ==> ch in s
  {
    if s != [] && IsEdge(s[|s| - 1]) {
      TrimEndTrims(s[..|s| - 1]);
    }
  }

  lemma FallbackIsNotReserved()
    ensures !IsReserved(FALLBACK)
  {
    hide Upper;
    assert FALLBACK == "recovered_file" + "." + "bin";
    LastAtIs("recovered_file", '.', "bin");
    assert |Stem(FALLBACK)| == 14;
    assert forall r :: r in RESERVED ==> |r| <= 4;
  }

  predicate IsNameChar(ch: char) {
    'a' <= ch <= 'z' || ch == '_' || ch == '.'
  }

  lemma NameCharsAreHarmless(ch: char)
    requires IsNameChar(ch)
    ensures !IsControl(ch) && !IsForbidden(ch) && (ch != '.' ==> !IsEdge(ch))
  {
  }

  lemma FallbackIsSafe()
    ensures Safe(FALLBACK)
  {
    hide IsControl, IsForbidden, IsEdge, IsReserved;
    FallbackIsNotReserved();
    forall ch | ch in FALLBACK
      ensures !IsControl(ch) && !IsForbidden(ch)
    {
      assert IsNameChar(ch);
      NameCharsAreHarmless(ch);
    }
    NameCharsAreHarmless(FALLBACK[0]);
    NameCharsAreHarmless(FALLBACK[|FALLBACK| - 1]);
  }

  /** Every sanitised name is safe. */
  lemma SanitizedIsSafe(raw: string)
    ensures Safe(Sanitize(raw))
  {
    hide IsEdge, IsForbidden, IsReserved, IsControl, TrimStart, TrimEnd, Filtered, ForwardSlashes, FileName;
    FallbackIsSafe();
    var base := FileName(ForwardSlashes(Filtered(raw)));
    TrimStartTrims(base);
    TrimEndTrims(TrimStart(base, IsEdge));
    NoControlsLeft(raw);
  }

  lemma NoControlsLeft(raw: string)
    ensures forall ch :: ch in ForwardSlashes(Filtered(raw)) ==> !IsControl(ch)
  {
    hide IsControl;
    var path := ForwardSlashes(Filtered(raw));
    SlashIsNoControl();
    forall ch | ch in path
      ensures !IsControl(ch)
    {
      var i :| 0 <= i < |path| && path[i] == ch;
      assert Filtered(raw)[i] in Filtered(raw);
    }
  }

  lemma SlashIsNoControl()
    ensures !IsControl('/')
  {
  }

  lemma {:induction false} NothingFiltered(s: string)
    requires forall ch :: ch in s ==> !IsControl(ch)
    ensures Filtered(s) == s
  {
    hide IsControl;
    if s != [] {
      NothingFiltered(s[1..]);
      assert s == [s[0]] + s[1..];
    }
  }

  /** Safe names, and only those, come through unchanged; so sanitising twice changes nothing. */
  lemma SanitizeKeepsExactlySafe(name: string)
    ensures Sanitize(name) == name <==> Safe(name)
    ensures Sanitize(Sanitize(name)) == Sanitize(name)
  {
    hide Sanitize, Safe;
    SanitizedIsSafe(name);
    SafeIsKept(Sanitize(name));
    if Safe(name) {
      SafeIsKept(name);
    }
  }

  lemma SafeIsKept(name: string)
    requires Safe(name)
    ensures Sanitize(name) == name
  {
    hide IsControl, IsReserved, IsEdge, IsForbidden, Trimmed;
    SafeNamesAreWhole(name);
    NothingFiltered(name);
    assert ForwardSlashes(name) == name;
  }

  lemma {:induction false} FilteredConcat(a: string, b: string)
    ensures Filtered(a + b) == Filtered(a) + Filtered(b)
  {
    hide IsControl;
    if a == [] {
      assert a + b == b;
    } else {
      assert (a + b)[1..] == a[1..] + b;
      FilteredConcat(a[1..], b);
    }
  }

  lemma LastComponent(dir: string, name: string)
    requires '/' !in name && name != "" && name != "." && name != ".."
    ensures FileName(dir + "/" + name) == name
  {
    LastAtIs(dir, '/', name);
    assert (dir + "/" + name)[|dir| + 1..] == name;
  }

  lemma SlashesForward(clean: string, slash: char, name: string)
    requires (slash == '/' || slash == '\\') && '\\' !in name
    ensures ForwardSlashes(clean + [slash] + name) == ForwardSlashes(clean) + "/" + name
  {
  }

  lemma FilteredPath(dir: string, slash: char, name: string)
    requires !IsControl(slash) && forall ch :: ch in name ==> !IsControl(ch)
    ensures Filtered(dir + [slash] + name) == Filtered(dir) + [slash] + name
  {
    hide IsControl;
    NothingFiltered(name);
    NothingFiltered([slash]);
    FilteredConcat(dir + [slash], name);
    FilteredConcat(dir, [slash]);
  }

  lemma SafeNamesAreWhole(name: string)
    requires Safe(name)
    ensures '/' !in name && '\\' !in name && name != "." && name != ".." && Trimmed(name) == name
    ensures !exists ch | ch in name :: IsForbidden(ch)
  {
    hide IsControl, IsReserved, IsWhitespace;
    assert IsForbidden('/') && IsForbidden('\\') && IsEdge('.');
  }

  lemma SlashesAreNoControls(slash: char)
    requires slash == '/' || slash == '\\'
    ensures !IsControl(slash)
  {
  }

  /** Directories in front of a safe name are dropped, whichever slash is used, and the name itself is kept. */
  lemma DirectoriesAreDropped(dir: string, slash: char, name: string)
    requires Safe(name) && (slash == '/' || slash == '\\')
    ensures Sanitize(dir + [slash] + name) == name
  {
    hide IsControl, IsReserved, IsEdge, IsForbidden, Filtered, ForwardSlashes, FileName, Trimmed;
    SafeNamesAreWhole(name);
    SlashesAreNoControls(slash);
    FilteredPath(dir, slash, name);
    SlashesForward(Filtered(dir), slash, name);
    LastComponent(ForwardSlashes(Filtered(dir)), name);
  }

  // Not overwriting.

  /** The n-th alternative to a name. */
  function Candidate(desired: string, n: nat): string {
    Stem(desired) + " (" + Decimal(n) + ")" + Suffix(desired)
  }

  function Suffix(name: string): string {
    match Extension(name)
    case None => ""
    case Some(e) => "." + e
  }

  const LAST_CANDIDATE: nat := 9999

  /** Tries the name itself, then its alternatives in turn, against the names that exist beside it. */
  method UniqueOutputName(taken: set<string>, desired: string, random: nat) returns (name: string)
    ensures desired !in taken ==> name == desired
    ensures desired in taken && (exists n | 1 <= n <= 9999 :: Candidate(desired, n) !in taken) ==>
      exists n | 1 <= n <= 9999 :: name == Candidate(desired, n) && name !in taken
        && forall k | 1 <= k < n :: Candidate(desired, k) in taken
    ensures desired in taken && (forall n | 1 <= n <= 9999 :: Candidate(desired, n) in taken) ==>
      name == Stem(desired) + "-" + Decimal(random)
  {
    hide Candidate, Stem;
    if desired !in taken {
      return desired;
    }
    var n := 1;
    while n <= LAST_CANDIDATE
      invariant 1 <= n <= LAST_CANDIDATE + 1
      invariant forall k | 1 <= k < n :: Candidate(desired, k) in taken
    {
      var candidate := Candidate(desired, n);
      if candidate !in taken {
        return candidate;
      }
      n := n + 1;
    }
    name := Stem(desired) + "-" + Decimal(random);
  }

  lemma CandidatesDiffer(desired: string, m: nat, n: nat)
    requires Candidate(desired, m) == Candidate(desired, n)
    ensures m == n
  {
    hide Stem, Suffix, Decimal;
    var a, b := Stem(desired) + " (", ")" + Suffix(desired);
    var x, y := a + (Decimal(m) + b), a + (Decimal(n) + b);
    assert Candidate(desired, m) == x && Candidate(desired, n) == y;
    assert x[|a|..] == Decimal(m) + b && y[|a|..] == Decimal(n) + b;
    assert (Decimal(m) + b)[..|Decimal(m)|] == Decimal(m) && (Decimal(n) + b)[..|Decimal(n)|] == Decimal(n);
    DecimalInjective(m, n);
  }

  /** The first n candidates are n different names. */
  lemma {:induction false} CandidateCount(desired: string, n: nat) returns (names: set<string>)
    ensures names == set k | 1 <= k <= n :: Candidate(desired, k)
    ensures |names| == n
  {
    hide Candidate;
    if n == 0 {
      names := {};
    } else {
      var fewer := CandidateCount(desired, n - 1);
      if Candidate(desired, n) in fewer {
        var k :| 1 <= k <= n - 1 && Candidate(desired, k) == Candidate(desired, n);
        CandidatesDiffer(desired, k, n);
      }
      names := fewer + {Candidate(desired, n)};
    }
  }

  /** In a folder with fewer than 9999 entries there is always a free candidate, so nothing is overwritten. */
  lemma FreeCandidateExists(taken: set<string>, desired: string)
    requires |taken| < LAST_CANDIDATE
    ensures exists n | 1 <= n <= LAST_CANDIDATE :: Candidate(desired, n) !in taken
  {
    hide Candidate;
    var names := CandidateCount(desired, LAST_CANDIDATE);
    if forall n | 1 <= n <= LAST_CANDIDATE :: Candidate(desired, n) in taken {
      assert names <= taken;
      SubsetIsNotLarger(names, taken);
    }
  }

  lemma {:induction false} SubsetIsNotLarger(a: set<string>, b: set<string>)
    requires a <= b
    ensures |a| <= |b|
    decreases a
  {
    if a != {} {
      var x :| x in a;
      SubsetIsNotLarger(a - {x}, b - {x});
    }
  }

  // The chunk size of the encrypt command.

  /**
   The size asked for in megabytes, kept within the format's bounds; a product beyond 32 bits counts as none asked
   for.
   */
  function ChunkSize(megabytes: Option<U32>): nat {
    match megabytes
    case None => DEFAULT_CHUNK_SIZE
    case Some(mb) =>
      var bytes := mb * 1024 * 1024;
      if bytes >= 0x1_0000_0000 then DEFAULT_CHUNK_SIZE
      else if bytes < MIN_CHUNK_SIZE then MIN_CHUNK_SIZE
      else if bytes > MAX_CHUNK_SIZE then MAX_CHUNK_SIZE
      else bytes
  }

  /**
   Whatever size is asked for, the encryptor does not refuse the one used; it is the one asked for from 1 to 256 MB.
   */
  lemma ChunkSizeIsAccepted(megabytes: Option<U32>, password: Bytes, o: EncryptOptions)
    requires o.chunkSize == ChunkSize(megabytes)
    ensures Guard(password, o) != Some(InvalidChunkSize(o.chunkSize))
    ensures megabytes.Some? ==> (o.chunkSize == megabytes.value * 1024 * 1024 <==> 1 <= megabytes.value <= 256)
    ensures o.chunkSize == match megabytes
                           case None => 16_777_216
                           case Some(mb) =>
                             if mb == 0 then 65_536
                             else if mb <= 256 then mb * 1_048_576
                             else if mb < 4096 then 268_435_456
                             else 16_777_216
  {
  }
}
