/** File names and paths, as far as the program takes them apart and puts them together. */
module FileNames {
  import opened Outcomes
  import opened Primitives
  import opened Text

  /** An absolute path, as its components. */
  type Path = seq<string>

  /** The last component. */
  function Name(path: Path): string
    requires path != []
  {
    path[|path| - 1]
  }

  function ForwardSlashes(s: string): (r: string)
    ensures |r| == |s|
    ensures forall i :: 0 <= i < |s| ==> r[i] == if s[i] == '\\' then '/' else s[i]
  {
    if s == [] then [] else [if s[0] == '\\' then '/' else s[0]] + ForwardSlashes(s[1..])
  }

  /** Where a character stands last. */
  function LastAt(s: string, c: char): (r: Option<nat>)
    ensures r.Some? ==> r.value < |s| && s[r.value] == c && c !in s[r.value + 1..]
    ensures r.None? ==> c !in s
  {
    if s == [] then None
    else if s[|s| - 1] == c then Some(|s| - 1)
    else match LastAt(s[..|s| - 1], c)
      case None => assert s == s[..|s| - 1] + [s[|s| - 1]]; None
      case Some(i) => assert s[i + 1..] == s[..|s| - 1][i + 1..] + [s[|s| - 1]]; Some(i)
  }

  /** A name up to its last dot; a leading dot does not count. */
  function Stem(name: string): string {
    match LastAt(name, '.')
    case None => name
    case Some(i) => if i == 0 then name else name[..i]
  }

  /** What follows the last dot of a name. */
  function Extension(name: string): Option<string> {
    match LastAt(name, '.')
    case None => None
    case Some(i) => if i == 0 then None else Some(name[i + 1..])
  }

  lemma {:induction false} LastAtIs(a: string, c: char, b: string)
    requires c !in b
    ensures LastAt(a + [c] + b, c) == Some(|a|)
    decreases |b|
  {
    var s := a + [c] + b;
    if b != [] {
      LastAtIs(a, c, b[..|b| - 1]);
      assert s[..|s| - 1] == a + [c] + b[..|b| - 1];
      assert s[|s| - 1] == b[|b| - 1];
    }
  }

  const CONTAINER_SUFFIX: string := ".wraith"

  /** The name of the container for a file, when names are kept. */
  function PlainName(name: string): string {
    name + CONTAINER_SUFFIX
  }

  /** The name of the container for a file, when names are hidden. */
  function FuzzedName(c: Crypto, name: string): string {
    Hex(c.sha256(c.utf8("WRAITH_NAME_FUZZING_V1:") + c.utf8(name))) + CONTAINER_SUFFIX
  }

  lemma PlainNameInjective(x: string, y: string)
    requires PlainName(x) == PlainName(y)
    ensures x == y
  {
    assert PlainName(x)[..|x|] == x && PlainName(y)[..|y|] == y;
  }

  lemma ContainerNameEnds(name: string)
    ensures EndsWith(name + CONTAINER_SUFFIX, CONTAINER_SUFFIX)
  {
    assert (name + CONTAINER_SUFFIX)[|name|..] == CONTAINER_SUFFIX;
  }

  /** The temporary name beside a destination: its extension is replaced. */
  function TempName(destination: string, micros: nat): string {
    Stem(destination) + ".tmp." + Decimal(micros)
  }

  function ShreddedName(random: string): string {
    ".shredded_" + random
  }

  lemma ContainerNamesEndInH(s: string)
    ensures EndsWith(s, CONTAINER_SUFFIX) ==> s[|s| - 1] == 'h'
  {
    if EndsWith(s, CONTAINER_SUFFIX) {
      assert s[|s| - 1] == s[|s| - 7..][6];
    }
  }

  /** A temporary name is never the name of a container. */
  lemma TempIsNoContainer(destination: string, micros: nat)
    ensures !EndsWith(TempName(destination, micros), CONTAINER_SUFFIX)
  {
    var s, d := TempName(destination, micros), Decimal(micros);
    ContainerNamesEndInH(s);
    assert s[|s| - 1] == d[|d| - 1];
  }

  lemma ShreddedIsNoContainer(random: string)
    requires AllHex(random)
    ensures !EndsWith(ShreddedName(random), CONTAINER_SUFFIX)
  {
    var s := ShreddedName(random);
    ContainerNamesEndInH(s);
    assert s[|s| - 1] == if random == [] then '_' else random[|random| - 1];
  }

  predicate AllHex(s: string) {
    forall i :: 0 <= i < |s| ==> IsHexDigit(s[i])
  }

  /** Components joined with slashes. */
  function Slashed(p: Path): string {
    if p == [] then "" else if |p| == 1 then p[0] else p[0] + ("/" + Slashed(p[1..]))
  }
}
