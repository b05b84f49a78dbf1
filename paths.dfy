/** The part of pathlib the endpoint relies on: parsing a relative or absolute path, the
    "/" operator, a path's name, and the name's stem. */
module Paths {
  import opened Wrappers
  import opened Text

  /** A path as pathlib holds it: rooted or not, and its components. */
  datatype Path = Path(absolute: bool, parts: seq<string>)

  /** A component pathlib keeps: not empty, not ".", and without a separator. */
  predicate ProperPart(p: string)
  {
    p != "" && p != "." && '/' !in p
  }

  predicate Normal(p: Path)
  {
    forall i :: 0 <= i < |p.parts| ==> ProperPart(p.parts[i])
  }

  /** The pieces of s between separators. */
  function Pieces(s: string): (r: seq<string>)
    ensures |r| >= 1
    ensures forall i :: 0 <= i < |r| ==> '/' !in r[i]
    decreases |s|
  {
    match IndexOf(s, '/')
    case None => [s]
    case Some(i) => [s[..i]] + Pieces(s[i + 1..])
  }

  /** Pieces without the empty and "." ones, which pathlib drops. */
  function Kept(ps: seq<string>): (r: seq<string>)
    requires forall i :: 0 <= i < |ps| ==> '/' !in ps[i]
    ensures forall i :: 0 <= i < |r| ==> ProperPart(r[i])
    ensures |r| <= |ps|
  {
    if ps == [] then []
    else (if ps[0] == "" || ps[0] == "." then [] else [ps[0]]) + Kept(ps[1..])
  }

  /** A string read as a path: rooted when it starts with a separator. */
  function Parse(s: string): (p: Path)
    ensures Normal(p)
  {
    Path(|s| > 0 && s[0] == '/', Kept(Pieces(s)))
  }

  /** base / s: a rooted right-hand side replaces the base, anything else is appended. */
  function Join(base: Path, s: string): (r: Path)
    ensures Normal(base) ==> Normal(r)
  {
    var q := Parse(s);
    if q.absolute then q else Path(base.absolute, base.parts + q.parts)
  }

  /** The final component, or "" when there is none. */
  function Name(p: Path): (name: string)
    ensures Normal(p) ==> '/' !in name
  {
    if p.parts == [] then "" else p.parts[|p.parts| - 1]
  }

  /** pathlib's stem: the name up to its last dot, unless that dot is the first or the last
      character. */
  function Stem(name: string): string
  {
    match LastIndexOf(name, '.')
    case None => name
    case Some(i) => if 0 < i < |name| - 1 then name[..i] else name
  }

  /** pathlib's suffix, the other half of the name. */
  function Suffix(name: string): string
  {
    match LastIndexOf(name, '.')
    case None => ""
    case Some(i) => if 0 < i < |name| - 1 then name[i..] else ""
  }

  /** The stem and the suffix make up the name; a non-empty suffix is a dot, at least one
      more character and no other dot, behind a non-empty stem. */
  lemma StemAndSuffix(name: string)
    ensures Stem(name) + Suffix(name) == name
    ensures Suffix(name) != "" ==>
              |Suffix(name)| >= 2 && Suffix(name)[0] == '.' && '.' !in Suffix(name)[1..] && Stem(name) != ""
    ensures Suffix(name) == "" ==> Stem(name) == name
  {
    match LastIndexOf(name, '.')
    case None =>
    case Some(i) =>
      if 0 < i < |name| - 1 {
        assert name[..i] + name[i..] == name;
        assert name[i..][1..] == name[i + 1..];
      }
  }

  /** A component with no separator in it is appended as it is. */
  lemma JoinComponent(base: Path, s: string)
    requires ProperPart(s)
    ensures Join(base, s) == Path(base.absolute, base.parts + [s])
  {
    assert Pieces(s) == [s];
    assert Kept([s]) == [s] by {
      assert [s][1..] == [];
    }
  }

  /** No stem with a suffix appended is the name it came from. */
  lemma AppendedNameDiffers(name: string, tail: string)
    requires tail != "" && tail[0] != '.'
    ensures Stem(name) + tail != name
  {
    StemAndSuffix(name);
    if Suffix(name) != "" {
      assert name[|Stem(name)|] == '.';
    }
  }

  /** A stem holds no separator when its name holds none. */
  lemma StemPlain(name: string)
    requires '/' !in name
    ensures '/' !in Stem(name)
  {
    StemAndSuffix(name);
  }
}
