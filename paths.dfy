/** The file-name extension as `os.path.splitext` computes it for Windows
    paths (the program names Windows locations for its OCR engine and PDF
    renderer): the part of the final path component from its last '.' on,
    where dots that only lead the component do not start an extension. */
module Paths {

  import opened Wrappers
  import opened PyStr

  /** Both '/' and '\' separate path components on Windows. */
  predicate IsSep(c: char) {
    c == '/' || c == '\\'
  }

  predicate AllDots(s: string) {
    forall i :: 0 <= i < |s| ==> s[i] == '.'
  }

  /** Where the final path component starts: just after the last separator,
      or at 0 when there is none. */
  function BaseStart(p: string): (k: nat)
    ensures k <= |p|
    ensures k > 0 ==> IsSep(p[k - 1])
    ensures forall i :: k <= i < |p| ==> !IsSep(p[i])
    decreases |p|
  {
    if |p| == 0 then 0
    else if IsSep(p[|p| - 1]) then |p|
    else BaseStart(p[..|p| - 1])
  }

  /** Position of the last '.' of `s`, as `str.rfind('.')`. */
  function LastDot(s: string): (r: Option<nat>)
    ensures r.Some? ==> r.value < |s| && s[r.value] == '.'
    ensures r.Some? ==> forall i :: r.value < i < |s| ==> s[i] != '.'
    ensures r.None? ==> forall i :: 0 <= i < |s| ==> s[i] != '.'
    decreases |s|
  {
    if |s| == 0 then None
    else if s[|s| - 1] == '.' then Some(|s| - 1)
    else LastDot(s[..|s| - 1])
  }

  /** `os.path.splitext(p)[1]`. The extension is a suffix of the path that
      starts with '.', contains no further dot and no separator, and follows a
      part of the final component that is not only dots (ExtensionEmptyIff
      says when it is empty). */
  function Extension(p: string): (e: string)
    ensures |e| <= |p| - BaseStart(p) && e == p[|p| - |e|..]
    ensures e != [] ==> e[0] == '.'
    ensures forall i :: 1 <= i < |e| ==> e[i] != '.' && !IsSep(e[i])
    ensures e != [] ==> !AllDots(p[BaseStart(p)..|p| - |e|])
  {
    var b := BaseStart(p);
    var name := p[b..];
    match LastDot(name)
    case None => ""
    case Some(d) =>
      if AllDots(name[..d]) then ""
      else
        assert p[b..b + d] == name[..d];
        name[d..]
  }

  /** An empty extension means every dot of the final component has only
      dots before it there. */
  lemma ExtensionEmpty(p: string)
    requires Extension(p) == []
    ensures forall j :: BaseStart(p) <= j < |p| && p[j] == '.' ==> AllDots(p[BaseStart(p)..j])
  {
    var b := BaseStart(p);
    match LastDot(p[b..])
    case None => DotsOnlyUpTo(p, b, -1);
    case Some(d) => DotsOnlyUpTo(p, b, d);
  }

  /** If the final component, starting at `b`, has no dot after position `d`
      and only dots before it, every dot in it has only dots before it. */
  lemma DotsOnlyUpTo(p: string, b: nat, d: int)
    requires b <= |p| && -1 <= d < |p| - b
    requires forall i :: d < i < |p| - b ==> p[b..][i] != '.'
    requires d >= 0 ==> AllDots(p[b..][..d])
    ensures forall j :: b <= j < |p| && p[j] == '.' ==> AllDots(p[b..j])
  {
    var name := p[b..];
    forall j | b <= j < |p| && p[j] == '.'
      ensures AllDots(p[b..j])
    {
      assert name[j - b] == '.';
      assert p[b..j] == name[..d][..j - b];
    }
  }

  /** The final component starts right after `dir` when `dir` is empty or
      ends with a separator and the rest holds none. */
  lemma BaseStartAfter(dir: string, rest: string)
    requires dir == [] || IsSep(dir[|dir| - 1])
    requires forall i :: 0 <= i < |rest| ==> !IsSep(rest[i])
    ensures BaseStart(dir + rest) == |dir|
  {
    var p := dir + rest;
    forall i | |dir| <= i < |p|
      ensures !IsSep(p[i])
    {
      assert p[i] == rest[i - |dir|];
    }
    assert dir != [] ==> p[|dir| - 1] == dir[|dir| - 1];
    BaseStartAt(p, |dir|);
  }

  /** The final component starts at `k` when a separator (or the start of
      the path) comes right before `k` and none comes after. */
  lemma BaseStartAt(p: string, k: nat)
    requires k <= |p| && (k == 0 || IsSep(p[k - 1]))
    requires forall i :: k <= i < |p| ==> !IsSep(p[i])
    ensures BaseStart(p) == k
  {
    var b := BaseStart(p);
    assert b > 0 ==> IsSep(p[b - 1]);
    assert k > 0 ==> IsSep(p[k - 1]);
  }

  lemma LastDotUnique(s: string, d: nat)
    requires d < |s| && s[d] == '.'
    requires forall i :: d < i < |s| ==> s[i] != '.'
    ensures LastDot(s) == Some(d)
  {
  }

  /** The extension read off the final component's last dot. */
  lemma ExtensionAt(p: string, b: nat, d: nat)
    requires BaseStart(p) == b && LastDot(p[b..]) == Some(d) && !AllDots(p[b..][..d])
    ensures Extension(p) == p[b + d..]
  {
    assert p[b..][d..] == p[b + d..];
  }

  /** A path `dir + stem + ext`, with `ext` a dot and dot-free characters and
      `stem` a separator-free name that is not only dots, has extension `ext`. */
  lemma ExtensionOfName(dir: string, stem: string, ext: string)
    requires dir == [] || IsSep(dir[|dir| - 1])
    requires forall i :: 0 <= i < |stem| ==> !IsSep(stem[i])
    requires !AllDots(stem)
    requires |ext| >= 1 && ext[0] == '.'
    requires forall i :: 1 <= i < |ext| ==> ext[i] != '.' && !IsSep(ext[i])
    ensures Extension(dir + stem + ext) == ext
  {
    var p := dir + stem + ext;
    var name := stem + ext;
    ThreeParts(dir, stem, ext);
    NameParts(stem, ext);
    BaseStartAfter(dir, name);
    LastDotUnique(name, |stem|);
    ExtensionAt(p, |dir|, |stem|);
  }

  /** A name made of a separator-free stem and an extension holds no
      separator, and its last dot is the one starting the extension. */
  lemma NameParts(stem: string, ext: string)
    requires forall i :: 0 <= i < |stem| ==> !IsSep(stem[i])
    requires |ext| >= 1 && ext[0] == '.'
    requires forall i :: 1 <= i < |ext| ==> ext[i] != '.' && !IsSep(ext[i])
    ensures forall i :: 0 <= i < |stem + ext| ==> !IsSep((stem + ext)[i])
    ensures (stem + ext)[|stem|] == '.'
    ensures forall i :: |stem| < i < |stem + ext| ==> (stem + ext)[i] != '.'
  {
    var name := stem + ext;
    forall i | 0 <= i < |name|
      ensures !IsSep(name[i]) && (i > |stem| ==> name[i] != '.')
    {
      if i < |stem| {
        assert name[i] == stem[i];
      } else {
        assert name[i] == ext[i - |stem|];
      }
    }
  }

  /** The extension is empty if and only if every dot of the final component
      has only dots before it in that component. */
  lemma ExtensionEmptyIff(p: string)
    ensures Extension(p) == [] <==>
              forall j :: BaseStart(p) <= j < |p| && p[j] == '.' ==> AllDots(p[BaseStart(p)..j])
  {
    var e := Extension(p);
    var b := BaseStart(p);
    if e != [] {
      var j := |p| - |e|;
      assert p[j] == e[0];
    } else {
      ExtensionEmpty(p);
    }
  }

  lemma LowerKeepsDotsAndSeps(s: string)
    ensures forall i :: 0 <= i < |s| ==> (Lower(s)[i] == '.' <==> s[i] == '.')
    ensures forall i :: 0 <= i < |s| ==> (IsSep(Lower(s)[i]) <==> IsSep(s[i]))
  {
  }

  lemma LowerSlice(s: string, i: nat, j: nat)
    requires i <= j <= |s|
    ensures Lower(s)[i..j] == Lower(s[i..j])
  {
  }

  lemma BaseStartLower(p: string)
    ensures BaseStart(Lower(p)) == BaseStart(p)
  {
    LowerKeepsDotsAndSeps(p);
    var q := Lower(p);
    var b, k := BaseStart(p), BaseStart(q);
    assert b > 0 ==> IsSep(q[b - 1]);
    assert k > 0 ==> IsSep(p[k - 1]);
  }

  lemma LastDotLower(s: string)
    ensures LastDot(Lower(s)) == LastDot(s)
  {
    LowerKeepsDotsAndSeps(s);
    if LastDot(s).Some? {
      LastDotUnique(Lower(s), LastDot(s).value);
    }
  }

  lemma AllDotsLower(s: string)
    ensures AllDots(Lower(s)) <==> AllDots(s)
  {
    LowerKeepsDotsAndSeps(s);
  }

  /** The final component, its last dot and whether only dots precede that
      dot are the same after lower-casing. */
  lemma LowerKeepsLayout(p: string)
    ensures BaseStart(Lower(p)) == BaseStart(p)
    ensures Lower(p)[BaseStart(p)..] == Lower(p[BaseStart(p)..])
    ensures LastDot(Lower(p)[BaseStart(p)..]) == LastDot(p[BaseStart(p)..])
    ensures LastDot(p[BaseStart(p)..]).Some? ==>
              var d := LastDot(p[BaseStart(p)..]).value;
              (AllDots(Lower(p)[BaseStart(p)..][..d]) <==> AllDots(p[BaseStart(p)..][..d]))
  {
    var b := BaseStart(p);
    var name := p[b..];
    BaseStartLower(p);
    LowerSlice(p, b, |p|);
    LastDotLower(name);
    if LastDot(name).Some? {
      var d := LastDot(name).value;
      LowerSlice(name, 0, d);
      AllDotsLower(name[..d]);
    }
  }

  /** Taking the extension commutes with ASCII lower-casing: case never moves
      a dot or a separator. */
  lemma ExtensionLower(p: string)
    ensures Extension(Lower(p)) == Lower(Extension(p))
  {
    var q := Lower(p);
    var b := BaseStart(p);
    LowerKeepsLayout(p);
    match LastDot(p[b..])
    case None =>
      assert Lower([]) == [];
    case Some(d) =>
      if AllDots(p[b..][..d]) {
        assert Lower([]) == [];
      } else {
        ExtensionLowerAt(p, b, d);
      }
  }

  lemma ExtensionLowerAt(p: string, b: nat, d: nat)
    requires BaseStart(p) == b && LastDot(p[b..]) == Some(d) && !AllDots(p[b..][..d])
    requires BaseStart(Lower(p)) == b && LastDot(Lower(p)[b..]) == Some(d) && !AllDots(Lower(p)[b..][..d])
    ensures Extension(Lower(p)) == Lower(Extension(p))
  {
    ExtensionAt(p, b, d);
    ExtensionAt(Lower(p), b, d);
    LowerSlice(p, b + d, |p|);
  }
}
