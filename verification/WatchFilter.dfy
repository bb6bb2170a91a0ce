/** Which files the watcher takes: should_process_file of src/watcher/mod.rs. */
module WatchFilter {
  import opened Text
  import opened FileNames

  /** How one character is lowered. */
  type Fold = char -> string

  /** Plain ASCII other than capitals is left alone. */
  ghost predicate FixesAscii(fold: Fold) {
    forall ch: char :: ch < 128 as char && !('A' <= ch <= 'Z') ==> fold(ch) == [ch]
  }

  function Lower(fold: Fold, s: string): string {
    if s == [] then [] else fold(s[0]) + Lower(fold, s[1..])
  }

  predicate Small(s: string) {
    forall i :: 0 <= i < |s| ==> s[i] < 128 as char && !('A' <= s[i] <= 'Z')
  }

  lemma {:induction false} LowerConcat(fold: Fold, a: string, b: string)
    ensures Lower(fold, a + b) == Lower(fold, a) + Lower(fold, b)
  {
    if a == [] {
      assert a + b == b;
    } else {
      assert (a + b)[1..] == a[1..] + b;
      LowerConcat(fold, a[1..], b);
    }
  }

  lemma {:induction false} LowerSmall(fold: Fold, s: string)
    requires FixesAscii(fold) && Small(s)
    ensures Lower(fold, s) == s
  {
    if s != [] {
      LowerSmall(fold, s[1..]);
      assert fold(s[0]) == [s[0]];
      assert [s[0]] + s[1..] == s;
    }
  }

  /** White space as `trim` sees it: the Unicode White_Space characters. */
  predicate IsWhitespace(ch: char) {
    var n := ch as nat;
    || 0x9 <= n <= 0xD || n == 0x20 || n == 0x85 || n == 0xA0 || n == 0x1680 || 0x2000 <= n <= 0x200A
    || n == 0x2028 || n == 0x2029 || n == 0x202F || n == 0x205F || n == 0x3000
  }

  function TrimStart(s: string, drop: char -> bool): string {
    if s != [] && drop(s[0]) then TrimStart(s[1..], drop) else s
  }

  function TrimEnd(s: string, drop: char -> bool): string {
    if s != [] && drop(s[|s| - 1]) then TrimEnd(s[..|s| - 1], drop) else s
  }

  /** System junk, hidden and half-written files, and containers. `lower` is the lowered name. */
  predicate Junk(lower: string) {
    || StartsWith(lower, ".")
    || StartsWith(lower, "~$")
    || EndsWith(lower, CONTAINER_SUFFIX)
    || EndsWith(lower, ".tmp")
    || Contains(lower, ".tmp.")
    || EndsWith(lower, ".crdownload")
    || EndsWith(lower, ".part")
    || lower == "thumbs.db"
    || lower == ".ds_store"
    || lower == "desktop.ini"
  }

  predicate ShouldProcess(fold: Fold, name: string, filterMode: string, filterExtensions: seq<string>) {
    if Junk(Lower(fold, name)) then false
    else if filterMode == "whitelist" && filterExtensions != [] then
      match Extension(name)
      case None => false
      case Some(ext) =>
        exists allowed | allowed in filterExtensions ::
          Lower(fold, TrimStart(TrimEnd(TrimStart(allowed, IsWhitespace), IsWhitespace), ch => ch == '.'))
            == Lower(fold, ext)
    else true
  }

  // Every name the watcher gives to a file is rejected, whatever the settings.

  lemma SuffixIsKept(fold: Fold, a: string, b: string)
    requires FixesAscii(fold) && Small(b)
    ensures EndsWith(Lower(fold, a + b), b)
  {
    LowerConcat(fold, a, b);
    LowerSmall(fold, b);
    assert (Lower(fold, a) + b)[|Lower(fold, a)|..] == b;
  }

  lemma ContainersRejected(fold: Fold, name: string, filterMode: string, filterExtensions: seq<string>)
    requires FixesAscii(fold)
    ensures !ShouldProcess(fold, name + CONTAINER_SUFFIX, filterMode, filterExtensions)
  {
    SuffixIsKept(fold, name, CONTAINER_SUFFIX);
  }

  lemma TempsRejected(fold: Fold, destination: string, micros: nat, filterMode: string, filterExtensions: seq<string>)
    requires FixesAscii(fold)
    ensures !ShouldProcess(fold, TempName(destination, micros), filterMode, filterExtensions)
  {
    var stem, digits := Stem(destination), Decimal(micros);
    LowerConcat(fold, stem + ".tmp.", digits);
    LowerConcat(fold, stem, ".tmp.");
    LowerSmall(fold, ".tmp.");
    ContainsMiddle(Lower(fold, stem), ".tmp.", Lower(fold, digits));
  }

  lemma ShreddedRejected(fold: Fold, random: string, filterMode: string, filterExtensions: seq<string>)
    requires FixesAscii(fold)
    ensures !ShouldProcess(fold, ShreddedName(random), filterMode, filterExtensions)
  {
    assert ShreddedName(random) == "." + ("shredded_" + random);
    LowerConcat(fold, ".", "shredded_" + random);
    LowerSmall(fold, ".");
  }
}
