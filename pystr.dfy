/** The few Python `str` operations the extraction code relies on:
    `strip()`, `lower()`, `split(sep)` (with `join` as its inverse) and the
    decimal rendering of a non-negative integer inside an f-string. */
module PyStr {

  import opened Wrappers

  /** Python's `str.isspace` for one character: the ASCII controls TAB..CR,
      the separators U+001C..U+001F, SPACE, NEL, NBSP and the Unicode space
      separators and line/paragraph separators. */
  predicate IsSpace(c: char) {
    var n := c as int;
    (9 <= n <= 13) || (28 <= n <= 32) || n == 0x85 || n == 0xA0 || n == 0x1680
    || (0x2000 <= n <= 0x200A) || n == 0x2028 || n == 0x2029 || n == 0x202F
    || n == 0x205F || n == 0x3000
  }

  predicate AllSpace(s: string) {
    forall i :: 0 <= i < |s| ==> IsSpace(s[i])
  }

  /** Neither the first nor the last character is whitespace. */
  predicate NoEdgeSpace(s: string) {
    s == [] || (!IsSpace(s[0]) && !IsSpace(s[|s| - 1]))
  }

  /** The first position at or after `i` that does not hold whitespace, or
      |s| when there is none. */
  function SkipSpace(s: string, i: nat): (k: nat)
    requires i <= |s|
    ensures i <= k <= |s|
    ensures forall j :: i <= j < k ==> IsSpace(s[j])
    ensures k == |s| || !IsSpace(s[k])
    decreases |s| - i
  {
    if i < |s| && IsSpace(s[i]) then SkipSpace(s, i + 1) else i
  }

  /** The position just after the last character before `i` that is not
      whitespace, or 0 when there is none. */
  function BackSpace(s: string, i: nat): (k: nat)
    requires i <= |s|
    ensures k <= i
    ensures forall j :: k <= j < i ==> IsSpace(s[j])
    ensures k == 0 || !IsSpace(s[k - 1])
    decreases i
  {
    if i > 0 && IsSpace(s[i - 1]) then BackSpace(s, i - 1) else i
  }

  /** Only whitespace between `k` and `i`, and none right before `k`, pins
      BackSpace(s, i) down to `k`. */
  lemma BackSpaceUnique(s: string, i: nat, k: nat)
    requires k <= i <= |s|
    requires forall j :: k <= j < i ==> IsSpace(s[j])
    requires k == 0 || !IsSpace(s[k - 1])
    ensures BackSpace(s, i) == k
  {
    var b := BackSpace(s, i);
    assert b > 0 ==> !IsSpace(s[b - 1]);
    assert k > 0 ==> !IsSpace(s[k - 1]);
  }

  /** `s.lstrip()`: the longest suffix of `s` not starting with whitespace. */
  function TrimStart(s: string): (r: string)
    ensures |r| <= |s| && r == s[|s| - |r|..]
    ensures AllSpace(s[..|s| - |r|])
    ensures r == [] || !IsSpace(r[0])
  {
    s[SkipSpace(s, 0)..]
  }

  /** `s.rstrip()`: the longest prefix of `s` not ending with whitespace. */
  function TrimEnd(s: string): (r: string)
    ensures |r| <= |s| && r == s[..|r|]
    ensures AllSpace(s[|r|..])
    ensures r == [] || !IsSpace(r[|r| - 1])
  {
    s[..BackSpace(s, |s|)]
  }

  /** `r` is `s` with its surrounding whitespace removed: the slice of `s`
      starting at `i`, with only whitespace before and after it and none at
      its own ends. */
  predicate StrippedAt(s: string, r: string, i: nat) {
    i + |r| <= |s| && r == s[i..i + |r|] && AllSpace(s[..i]) && AllSpace(s[i + |r|..]) && NoEdgeSpace(r)
  }

  /** `s.strip()`: the part of `s` left after removing whitespace at both
      ends. The result is a slice of `s` with only whitespace before and after
      it and none at its own ends. */
  function Strip(s: string): (r: string)
    ensures NoEdgeSpace(r)
    ensures exists i :: StrippedAt(s, r, i)
  {
    var t := TrimStart(s);
    var r := TrimEnd(t);
    assert r != [] ==> r[0] == t[0];
    SliceOfSuffix(s, |s| - |t|, |r|);
    assert StrippedAt(s, r, |s| - |t|);
    r
  }

  /** Slicing a suffix is slicing the whole. */
  lemma SliceOfSuffix<T>(s: seq<T>, i: nat, m: nat)
    requires i + m <= |s|
    ensures s[i..][..m] == s[i..i + m]
    ensures s[i..][m..] == s[i + m..]
  {
  }

  /** A window s[j..f) with non-blank ends lies inside any window s[i..e)
      that has only whitespace before and after it. */
  lemma InsideWindow(s: string, i: nat, e: nat, j: nat, f: nat)
    requires i <= e <= |s| && j < f <= |s|
    requires AllSpace(s[..i]) && AllSpace(s[e..])
    requires !IsSpace(s[j]) && !IsSpace(s[f - 1])
    ensures i <= j && f <= e
  {
    SpaceBefore(s, i);
    SpaceAfter(s, e);
  }

  lemma SpaceBefore(s: string, i: nat)
    requires i <= |s| && AllSpace(s[..i])
    ensures forall k :: 0 <= k < i ==> IsSpace(s[k])
  {
    assert forall k :: 0 <= k < i ==> s[..i][k] == s[k];
  }

  lemma SpaceAfter(s: string, e: nat)
    requires e <= |s| && AllSpace(s[e..])
    ensures forall k :: e <= k < |s| ==> IsSpace(s[k])
  {
    assert forall k :: e <= k < |s| ==> s[e..][k - e] == s[k];
  }

  /** At most one slice of `s` is `s` with its surrounding whitespace
      removed. */
  lemma StrippedUnique(s: string, r: string, i: nat, q: string, j: nat)
    requires StrippedAt(s, r, i) && StrippedAt(s, q, j)
    ensures r == q
  {
    if q != [] {
      assert s[j] == q[0] && s[j + |q| - 1] == q[|q| - 1];
      InsideWindow(s, i, i + |r|, j, j + |q|);
    }
    if r != [] {
      assert s[i] == r[0] && s[i + |r| - 1] == r[|r| - 1];
      InsideWindow(s, j, j + |q|, i, i + |r|);
    }
  }

  /** Strip's contract determines its result: whatever `s` stripped at some
      position gives is `Strip(s)`. */
  lemma StripUnique(s: string, r: string, i: nat)
    requires StrippedAt(s, r, i)
    ensures r == Strip(s)
  {
    var q := Strip(s);
    var j :| StrippedAt(s, q, j);
    StrippedUnique(s, r, i, q, j);
  }

  /** `strip()` is `lstrip()` followed by `rstrip()`. */
  lemma StripIsTrims(s: string)
    ensures Strip(s) == TrimEnd(TrimStart(s))
  {
  }

  lemma TrimStartNoop(s: string)
    requires s == [] || !IsSpace(s[0])
    ensures TrimStart(s) == s
  {
    assert SkipSpace(s, 0) == 0;
  }

  lemma TrimEndNoop(s: string)
    requires s == [] || !IsSpace(s[|s| - 1])
    ensures TrimEnd(s) == s
  {
    assert BackSpace(s, |s|) == |s|;
  }

  /** Stripping a string that has no whitespace at either end changes nothing,
      so `strip()` is idempotent. */
  lemma StripNoop(s: string)
    requires NoEdgeSpace(s)
    ensures Strip(s) == s
  {
    TrimStartNoop(s);
    TrimEndNoop(s);
  }

  lemma StripIdempotent(s: string)
    ensures Strip(Strip(s)) == Strip(s)
  {
    StripNoop(Strip(s));
  }

  /** Trailing whitespace after a non-blank prefix is removed up to, and never
      into, that prefix. */
  lemma TrimEndAfter(a: string, b: string)
    requires |a| > 0 && !IsSpace(a[|a| - 1])
    ensures TrimEnd(a + b) == a + TrimEnd(b)
  {
    var s, k := a + b, BackSpace(b, |b|);
    forall j | |a| + k <= j < |s|
      ensures IsSpace(s[j])
    {
      assert s[j] == b[j - |a|];
    }
    assert k > 0 ==> s[|a| + k - 1] == b[k - 1];
    assert s[|a| - 1] == a[|a| - 1];
    BackSpaceUnique(s, |s|, |a| + k);
    assert s[..|a| + k] == a + b[..k];
  }

  /** Whitespace appended to a string is all removed again by `rstrip()`. */
  lemma TrimEndSpaces(a: string, w: string)
    requires AllSpace(w)
    ensures TrimEnd(a + w) == TrimEnd(a)
  {
    var s, k := a + w, BackSpace(a, |a|);
    forall j | k <= j < |s|
      ensures IsSpace(s[j])
    {
      if j < |a| {
        assert s[j] == a[j];
      } else {
        assert s[j] == w[j - |a|];
      }
    }
    assert k > 0 ==> s[k - 1] == a[k - 1];
    BackSpaceUnique(s, |s|, k);
    assert s[..k] == a[..k];
  }

  lemma BlankLineIsSpace()
    ensures AllSpace("\n\n")
  {
    assert IsSpace('\n');
  }

  /** `rstrip()` of a non-blank head, some text and trailing whitespace keeps
      the head and the text up to its own trailing whitespace. */
  lemma TrimEndBetween(s: string, head: string, text: string, w: string)
    requires s == head + text + w
    requires |head| > 0 && !IsSpace(head[|head| - 1])
    requires AllSpace(w)
    ensures TrimEnd(s) == head + TrimEnd(text)
  {
    assert s == head + (text + w);
    assert TrimEnd(head + (text + w)) == head + TrimEnd(text + w) by {
      TrimEndAfter(head, text + w);
    }
    assert TrimEnd(text + w) == TrimEnd(text) by {
      TrimEndSpaces(text, w);
    }
  }

  // ---------------------------------------------------------------------------
  // lower()

  /** ASCII case folding of one character. */
  function LowerChar(c: char): char {
    if 'A' <= c <= 'Z' then (c as int + 32) as char else c
  }

  /** `s.lower()`, on the ASCII letters. */
  function Lower(s: string): (r: string)
    ensures |r| == |s|
  {
    seq(|s|, i requires 0 <= i < |s| => LowerChar(s[i]))
  }

  // ---------------------------------------------------------------------------
  // split(sep) and join

  // Slicing facts, stated once for any element type so that the proofs
  // below need no sequence extensionality of their own.

  lemma ShiftSlice<T>(s: seq<T>, a: nat, b: nat)
    requires |s| > 0 && a <= b <= |s| - 1
    ensures s[1..][a..b] == s[a + 1..b + 1]
  {
  }

  lemma Around<T>(s: seq<T>, i: nat, n: nat)
    requires i + n <= |s|
    ensures s == s[..i] + s[i..i + n] + s[i + n..]
  {
  }

  lemma HeadTail<T>(s: seq<T>)
    requires |s| > 0
    ensures s == [s[0]] + s[1..]
  {
  }

  lemma ThreeParts<T>(a: seq<T>, b: seq<T>, c: seq<T>)
    ensures a + b + c == a + (b + c)
    ensures (a + b + c)[|a|..] == b + c && (b + c)[..|b|] == b
    ensures (a + b + c)[|a| + |b|..] == c && (b + c)[|b|..] == c
  {
  }

  /** `sep` occurs in `s` starting at position `j`. */
  predicate OccursAt(s: string, sep: string, j: int) {
    0 <= j && j + |sep| <= |s| && s[j..j + |sep|] == sep
  }

  /** Position of the leftmost occurrence of `sep` in `s`, as `str.find`. */
  function IndexOf(s: string, sep: string): (r: Option<nat>)
    requires |sep| > 0
    ensures r.Some? ==> OccursAt(s, sep, r.value)
    ensures r.Some? ==> forall j :: 0 <= j < r.value ==> !OccursAt(s, sep, j)
    ensures r.None? ==> forall j :: !OccursAt(s, sep, j)
    decreases |s|
  {
    if |s| < |sep| then None
    else if s[..|sep|] == sep then Some(0)
    else match IndexOf(s[1..], sep)
      case None =>
        forall j | 1 <= j
          ensures !OccursAt(s, sep, j)
        {
          assert !OccursAt(s[1..], sep, j - 1);
          if j + |sep| <= |s| {
            ShiftSlice(s, j - 1, j - 1 + |sep|);
          }
        }
        None
      case Some(i) =>
        assert OccursAt(s, sep, i + 1) by {
          ShiftSlice(s, i, i + |sep|);
        }
        forall j | 1 <= j < i + 1
          ensures !OccursAt(s, sep, j)
        {
          assert !OccursAt(s[1..], sep, j - 1);
          ShiftSlice(s, j - 1, j - 1 + |sep|);
        }
        Some(i + 1)
  }

  /** `sep.join(pieces)`. */
  function Join(pieces: seq<string>, sep: string): string
    decreases |pieces|
  {
    if |pieces| == 0 then ""
    else if |pieces| == 1 then pieces[0]
    else pieces[0] + sep + Join(pieces[1..], sep)
  }

  /** `s.split(sep)` for a non-empty separator: cut at each leftmost,
      non-overlapping occurrence. The result always has at least one piece,
      no piece contains the separator, and joining the pieces gives `s` back. */
  function Split(s: string, sep: string): (r: seq<string>)
    requires |sep| > 0
    ensures |r| >= 1
    ensures Join(r, sep) == s
    ensures forall k :: 0 <= k < |r| ==> IndexOf(r[k], sep).None?
    decreases |s|
  {
    match IndexOf(s, sep)
    case None => [s]
    case Some(i) =>
      var head := s[..i];
      var rest := Split(s[i + |sep|..], sep);
      assert IndexOf(head, sep).None? by {
        if IndexOf(head, sep).Some? {
          var j := IndexOf(head, sep).value;
          assert head[j..j + |sep|] == s[j..j + |sep|];
          assert OccursAt(s, sep, j);
        }
      }
      Around(s, i, |sep|);
      [head] + rest
  }

  /** The separator the program splits its list of selected files on. */
  const ListSep: string := ", "

  /** A piece without ", " followed by ", " has its first ", " exactly there:
      the separator starts with ',' and continues with ' ', so it cannot start
      on the piece's last character. */
  lemma {:induction false} FirstSepAfterPiece(p: string, rest: string)
    requires IndexOf(p, ListSep).None?
    ensures IndexOf(p + ListSep + rest, ListSep) == Some(|p|)
  {
    var s := p + ListSep + rest;
    assert s[|p|..|p| + 2] == ListSep;
    assert OccursAt(s, ListSep, |p|);
    forall j | 0 <= j < |p|
      ensures !OccursAt(s, ListSep, j)
    {
      if j + 2 <= |p| {
        assert s[j..j + 2] == p[j..j + 2];
        assert !OccursAt(p, ListSep, j);
      } else {
        assert s[j + 1] == ',';
      }
    }
  }

  /** Splitting on ", " undoes joining with ", " exactly when no joined piece
      itself contains ", ". */
  lemma {:induction false} SplitJoin(pieces: seq<string>)
    requires |pieces| >= 1
    requires forall k :: 0 <= k < |pieces| ==> IndexOf(pieces[k], ListSep).None?
    ensures Split(Join(pieces, ListSep), ListSep) == pieces
    decreases |pieces|
  {
    if |pieces| == 1 {
      assert Join(pieces, ListSep) == pieces[0];
    } else {
      var rest := Join(pieces[1..], ListSep);
      var s := pieces[0] + ListSep + rest;
      assert Join(pieces, ListSep) == s;
      FirstSepAfterPiece(pieces[0], rest);
      ThreeParts(pieces[0], ListSep, rest);
      SplitJoin(pieces[1..]);
      HeadTail(pieces);
    }
  }

  // ---------------------------------------------------------------------------
  // decimal rendering, as in f"{n}"

  function Digit(d: nat): char
    requires d < 10
  {
    ('0' as int + d) as char
  }

  predicate IsDigit(c: char) {
    '0' <= c <= '9'
  }

  /** The decimal digits of `n`, most significant first, without leading zeros. */
  function NatToString(n: nat): (r: string)
    ensures |r| >= 1
    ensures forall i :: 0 <= i < |r| ==> IsDigit(r[i])
    ensures r[0] == '0' ==> n == 0
  {
    if n < 10 then [Digit(n)] else NatToString(n / 10) + [Digit(n % 10)]
  }

  function DigitValue(c: char): nat
    requires IsDigit(c)
  {
    c as int - '0' as int
  }

  /** The value of a string of decimal digits (the inverse of NatToString). */
  function DecimalValue(s: string): nat
    requires forall i :: 0 <= i < |s| ==> IsDigit(s[i])
  {
    if s == [] then 0
    else 10 * DecimalValue(s[..|s| - 1]) + DigitValue(s[|s| - 1])
  }

  /** The rendering reads back as the same number, so distinct page numbers
      give distinct page headings. */
  lemma {:induction false} DecimalRoundTrip(n: nat)
    ensures DecimalValue(NatToString(n)) == n
  {
    var s := NatToString(n);
    if n >= 10 {
      DecimalRoundTrip(n / 10);
      assert s[..|s| - 1] == NatToString(n / 10);
    }
  }

  lemma NatToStringInjective(m: nat, n: nat)
    requires NatToString(m) == NatToString(n)
    ensures m == n
  {
    DecimalRoundTrip(m);
    DecimalRoundTrip(n);
  }
}
