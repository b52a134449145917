/** The parts of POSIX `pathlib.PurePath` that the services use: `name` and `suffix`. */
module Paths {
  import opened Wrappers
  import opened Strings

  /** The components of a path: the pieces between slashes, without empty pieces and `.`. */
  function Components(pieces: seq<string>): (r: seq<string>)
    ensures forall k | 0 <= k < |r| :: r[k] != "" && r[k] != "." && r[k] in pieces
  {
    if pieces == [] then []
    else
      var last := pieces[|pieces| - 1];
      if last == "" || last == "." then Components(pieces[..|pieces| - 1])
      else Components(pieces[..|pieces| - 1]) + [last]
  }

  /** `PurePath(p).name`: the last component, or the empty string when there is none. */
  function PathName(p: string): (r: string)
    ensures '/' !in r
  {
    if Components(Split(p, '/')) == [] then ""
    else Components(Split(p, '/'))[|Components(Split(p, '/'))| - 1]
  }

  /** A name without slashes, other than `.`, is its own last component. */
  lemma NameIsItsOwnName(n: string)
    requires '/' !in n && n != "."
    ensures PathName(n) == n
  {
    SplitWithoutSep(n, '/');
  }

  /** Taking the name twice changes nothing. */
  lemma PathNameIdempotent(p: string)
    ensures PathName(PathName(p)) == PathName(p)
  {
    if PathName(p) != "" {
      NameIsItsOwnName(PathName(p));
    }
  }

  /** The position of the last `c` in `s`, as `str.rfind`. */
  function LastIndexOf(s: string, c: char): (r: Option<nat>)
    ensures r.None? ==> forall k | 0 <= k < |s| :: s[k] != c
    ensures r.Some? ==> r.value < |s| && s[r.value] == c && forall k | r.value < k < |s| :: s[k] != c
  {
    if s == [] then None
    else if s[|s| - 1] == c then Some(|s| - 1)
    else
      assert s == s[..|s| - 1] + [s[|s| - 1]];
      LastIndexOf(s[..|s| - 1], c)
  }

  /** `PurePath.suffix` of a name: from its last dot, when that dot is neither first nor last. */
  function Suffix(name: string): (r: string)
    ensures r != "" ==> 2 <= |r| < |name| && r[0] == '.' && '.' !in r[1..] && EndsWith(name, r)
  {
    match LastIndexOf(name, '.')
    case Some(i) => if 0 < i < |name| - 1 then name[i..] else ""
    case None => ""
  }

  /** The suffix of `stem.ext` is `.ext` when the stem is not empty and `ext` has no dot. */
  lemma SuffixOf(stem: string, ext: string)
    requires stem != "" && ext != "" && '.' !in ext
    ensures Suffix(stem + "." + ext) == "." + ext
  {
    var name := stem + "." + ext;
    var i := |stem|;
    assert name[i] == '.';
    assert name[i..] == "." + ext;
    forall k | i < k < |name|
      ensures name[k] != '.'
    {
      assert name[k] == ext[k - i - 1];
    }
  }

  /** A name with no dot after its first character has no suffix (`README`, `.bashrc`). */
  lemma NoSuffixWithoutInnerDot(name: string)
    requires forall k | 0 < k < |name| :: name[k] != '.'
    ensures Suffix(name) == ""
  {
  }
}
