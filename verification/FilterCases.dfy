/** Which files the watcher takes, on names taken apart: should_process_file of src/watcher/mod.rs from outside. */
module FilterCases {
  import opened Outcomes
  import opened Text
  import opened FileNames
  import opened WatchFilter

  /** Lowering goes character by character, in order. */
  lemma LowersEach(fold: Fold, a: string, ch: char, b: string)
    ensures Lower(fold, []) == []
    ensures Lower(fold, a + [ch] + b) == Lower(fold, a) + fold(ch) + Lower(fold, b)
  {
    LowerConcat(fold, a + [ch], b);
    LowerConcat(fold, a, [ch]);
    assert Lower(fold, [ch]) == fold(ch) + Lower(fold, []);
  }

  // What is never taken.

  /** The names that are passed over in every mode, once lowered. */
  ghost predicate PassedOver(s: string) {
    || "." <= s
    || "~$" <= s
    || (|s| >= 7 && s[|s| - 7..] == ".wraith")
    || (|s| >= 4 && s[|s| - 4..] == ".tmp")
    || (exists i: nat :: OccursAt(s, ".tmp.", i))
    || (|s| >= 11 && s[|s| - 11..] == ".crdownload")
    || (|s| >= 5 && s[|s| - 5..] == ".part")
    || s == "thumbs.db" || s == ".ds_store" || s == "desktop.ini"
  }

  lemma JunkExactly(s: string)
    ensures Junk(s) <==> PassedOver(s)
  {
    hide Contains, OccursAt;
    EndsExactly(s, ".wraith");
    EndsExactly(s, ".tmp");
    EndsExactly(s, ".crdownload");
    EndsExactly(s, ".part");
    ContainsExactly(s, ".tmp.");
  }

  lemma EndsExactly(s: string, suffix: string)
    ensures EndsWith(s, suffix) <==> |s| >= |suffix| && s[|s| - |suffix|..] == suffix
  {
  }

  lemma ContainsExactly(s: string, part: string)
    ensures Contains(s, part) <==> exists i: nat :: OccursAt(s, part, i)
    ensures forall i: nat :: OccursAt(s, part, i) ==> i + |part| <= |s| && s == s[..i] + part + s[i + |part|..]
  {
  }

  // The whitelist.

  /** The white space that is trimmed: the Unicode White_Space characters, one by one. */
  const SPACES: string := "\t\n\U{B}\U{C}\r \U{85}\U{A0}\U{1680}"
    + "\U{2000}\U{2001}\U{2002}\U{2003}\U{2004}\U{2005}\U{2006}\U{2007}\U{2008}\U{2009}\U{200A}"
    + "\U{2028}\U{2029}\U{202F}\U{205F}\U{3000}"

  lemma WhitespaceExactly(ch: char)
    ensures IsWhitespace(ch) <==> ch in SPACES
  {
  }

  /** An entry of the whitelist without the white space around it and the dots in front. */
  function Cleaned(allowed: string): string {
    TrimStart(TrimEnd(TrimStart(allowed, IsWhitespace), IsWhitespace), ch => ch == '.')
  }

  predicate AllOf(s: string, drop: char -> bool) {
    forall i :: 0 <= i < |s| ==> drop(s[i])
  }

  lemma {:induction false} StartTrimmed(a: string, b: string, drop: char -> bool)
    requires AllOf(a, drop) && (b == [] || !drop(b[0]))
    ensures TrimStart(a + b, drop) == b
  {
    if a == [] {
      assert a + b == b;
    } else {
      assert (a + b)[1..] == a[1..] + b;
      StartTrimmed(a[1..], b, drop);
    }
  }

  lemma {:induction false} EndTrimmed(a: string, b: string, drop: char -> bool)
    requires AllOf(b, drop) && (a == [] || !drop(a[|a| - 1]))
    ensures TrimEnd(a + b, drop) == a
    decreases |b|
  {
    if b == [] {
      assert a + b == a;
    } else {
      assert (a + b)[..|a + b| - 1] == a + b[..|b| - 1];
      EndTrimmed(a, b[..|b| - 1], drop);
    }
  }

  /** An entry may be written with a dot or without, and with white space around it. */
  lemma CleanedIs(before: string, dots: string, core: string, behind: string)
    requires AllOf(before, IsWhitespace) && AllOf(behind, IsWhitespace) && AllOf(dots, ch => ch == '.')
    requires core != [] && core[0] != '.' && !IsWhitespace(core[0]) && !IsWhitespace(core[|core| - 1])
    ensures Cleaned(before + dots + core + behind) == core
  {
    hide IsWhitespace;
    var written := dots + core;
    assert before + dots + core + behind == before + (written + behind);
    DotIsNoSpace();
    assert dots != [] ==> dots[0] == '.';
    assert (written + behind)[0] == written[0] && written[|written| - 1] == core[|core| - 1];
    StartTrimmed(before, written + behind, IsWhitespace);
    EndTrimmed(written, behind, IsWhitespace);
    StartTrimmed(dots, core, ch => ch == '.');
  }

  lemma DotIsNoSpace()
    ensures !IsWhitespace('.')
  {
  }

  /** Some entry of the list is this extension, whatever the case of either. */
  predicate Listed(fold: Fold, ext: string, filterExtensions: seq<string>) {
    exists allowed | allowed in filterExtensions :: Lower(fold, Cleaned(allowed)) == Lower(fold, ext)
  }

  /** A name as what stands before its last dot and what stands behind. */
  lemma Split(stem: string, ext: string)
    requires stem != [] && '.' !in ext
    ensures Stem(stem + "." + ext) == stem && Extension(stem + "." + ext) == Some(ext)
  {
    LastAtIs(stem, '.', ext);
    var name := stem + "." + ext;
    assert name[..|stem|] == stem && name[|stem| + 1..] == ext;
  }

  /** Under a whitelist a name with an extension is taken if and only if the list has the extension. */
  lemma WhitelistExactly(fold: Fold, stem: string, ext: string, filterExtensions: seq<string>)
    requires stem != [] && '.' !in ext && filterExtensions != []
    requires !PassedOver(Lower(fold, stem + "." + ext))
    ensures ShouldProcess(fold, stem + "." + ext, "whitelist", filterExtensions)
            <==> Listed(fold, ext, filterExtensions)
  {
    hide PassedOver, Junk, Extension, Stem;
    JunkExactly(Lower(fold, stem + "." + ext));
    Split(stem, ext);
  }

  /** And one without an extension is refused. */
  lemma NoExtensionIsRefused(fold: Fold, name: string, filterExtensions: seq<string>)
    requires '.' !in name && filterExtensions != []
    ensures !ShouldProcess(fold, name, "whitelist", filterExtensions)
  {
    hide Junk;
  }

  /** In every other mode, and with an empty list, all names are taken that are not passed over. */
  lemma OtherwiseTaken(fold: Fold, name: string, filterMode: string, filterExtensions: seq<string>)
    requires filterMode != "whitelist" || filterExtensions == []
    ensures ShouldProcess(fold, name, filterMode, filterExtensions) <==> !PassedOver(Lower(fold, name))
  {
    hide PassedOver, Junk;
    JunkExactly(Lower(fold, name));
  }

  // All of it in one.

  /** The whitelist has the extension of this name. */
  ghost predicate HasListed(fold: Fold, name: string, filterExtensions: seq<string>) {
    exists i: nat :: SplitsAt(name, i) && Listed(fold, name[i + 1..], filterExtensions)
  }

  ghost predicate Wanted(fold: Fold, name: string, filterMode: string, filterExtensions: seq<string>) {
    && !PassedOver(Lower(fold, name))
    && (filterMode == "whitelist" && filterExtensions != [] ==> HasListed(fold, name, filterExtensions))
  }

  /** The filter takes exactly what is wanted. */
  lemma TakesExactlyWanted(fold: Fold, name: string, filterMode: string, filterExtensions: seq<string>)
    ensures ShouldProcess(fold, name, filterMode, filterExtensions)
            <==> Wanted(fold, name, filterMode, filterExtensions)
  {
    hide PassedOver, Junk, Listed, Extension;
    JunkExactly(Lower(fold, name));
    if filterMode == "whitelist" && filterExtensions != [] {
      ListedExtension(fold, name, filterExtensions);
      ByExtension(fold, name, filterExtensions);
    }
  }

  lemma ByExtension(fold: Fold, name: string, filterExtensions: seq<string>)
    requires filterExtensions != []
    ensures ShouldProcess(fold, name, "whitelist", filterExtensions) <==>
              !Junk(Lower(fold, name)) && Extension(name).Some? && Listed(fold, Extension(name).value, filterExtensions)
  {
    hide Junk, Extension;
  }

  /** Position i is the last dot of a name, and not its beginning. */
  predicate SplitsAt(name: string, i: nat) {
    0 < i < |name| && name[i] == '.' && '.' !in name[i + 1..]
  }

  lemma ExtensionAt(name: string, i: nat)
    requires SplitsAt(name, i)
    ensures Extension(name) == Some(name[i + 1..])
  {
    assert name == name[..i] + "." + name[i + 1..];
    Split(name[..i], name[i + 1..]);
  }

  lemma ExtensionSplits(name: string) returns (i: nat)
    requires Extension(name).Some?
    ensures SplitsAt(name, i) && Extension(name) == Some(name[i + 1..])
  {
    i := LastAt(name, '.').value;
  }

  lemma ListedExtension(fold: Fold, name: string, filterExtensions: seq<string>)
    ensures HasListed(fold, name, filterExtensions)
            <==> Extension(name).Some? && Listed(fold, Extension(name).value, filterExtensions)
  {
    hide Listed, Extension;
    if HasListed(fold, name, filterExtensions) {
      var i: nat :| SplitsAt(name, i) && Listed(fold, name[i + 1..], filterExtensions);
      ExtensionAt(name, i);
    }
    if Extension(name).Some? && Listed(fold, Extension(name).value, filterExtensions) {
      var i := ExtensionSplits(name);
      assert SplitsAt(name, i);
    }
  }
}
