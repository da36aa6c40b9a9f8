/**
 * PHP strings are byte strings. The model keeps them as sequences of
 * characters below 256, so that `strlen` is the sequence length.
 */
module PhpStrings {

  type byte = c: char | c as int < 256
  type Bytes = seq<byte>

  /** A value PHP may leave unset or null. */
  datatype Option<T> = None | Some(value: T)

  /** The characters PHP's `trim` strips by default: space, tab, LF, CR, NUL and vertical tab. */
  predicate IsTrimSpace(c: byte) {
    c == ' ' || c == '\t' || c == '\n' || c == '\r' || c as int == 0 || c as int == 11
  }

  predicate AllTrimSpace(s: Bytes) {
    forall i :: 0 <= i < |s| ==> IsTrimSpace(s[i])
  }

  /** PHP's truthiness of a string: only "" and "0" are false. */
  predicate PhpTruthy(s: Bytes) {
    s != [] && !(|s| == 1 && s[0] == '0')
  }

  /** Number of leading characters `trim` strips from the front. */
  function LeadingSpace(s: Bytes): (n: nat)
    ensures n <= |s|
    ensures AllTrimSpace(s[..n])
    ensures n < |s| ==> !IsTrimSpace(s[n])
  {
    if |s| > 0 && IsTrimSpace(s[0]) then 1 + LeadingSpace(s[1..]) else 0
  }

  /** Number of trailing characters `trim` strips from the back. */
  function TrailingSpace(s: Bytes): (n: nat)
    ensures n <= |s|
    ensures AllTrimSpace(s[|s| - n..])
    ensures n < |s| ==> !IsTrimSpace(s[|s| - n - 1])
  {
    if |s| > 0 && IsTrimSpace(s[|s| - 1]) then 1 + TrailingSpace(s[..|s| - 1]) else 0
  }

  /**
   * PHP's `trim`: the infix that remains after stripping trim-space from
   * both ends. The result is a contiguous piece of the input, it neither
   * begins nor ends with trim-space, and everything dropped was trim-space.
   */
  function Trim(s: Bytes): (r: Bytes)
    ensures LeadingSpace(s) + |r| <= |s|
    ensures r == s[LeadingSpace(s)..LeadingSpace(s) + |r|]
    ensures AllTrimSpace(s[LeadingSpace(s) + |r|..])
    ensures r == [] || (!IsTrimSpace(r[0]) && !IsTrimSpace(r[|r| - 1]))
    ensures r == [] <==> AllTrimSpace(s)
  {
    var front := LeadingSpace(s);
    var rest := s[front..];
    var back := TrailingSpace(rest);
    assert AllTrimSpace(s) ==> front == |s|;
    assert rest != [] ==> back < |rest|;
    rest[..|rest| - back]
  }

  /** A string that neither begins nor ends with trim-space is left alone by `trim`. */
  lemma {:induction false} TrimUntouched(s: Bytes)
    requires s == [] || (!IsTrimSpace(s[0]) && !IsTrimSpace(s[|s| - 1]))
    ensures Trim(s) == s
  {
    if s != [] {
      assert LeadingSpace(s) == 0;
      assert TrailingSpace(s) == 0;
    }
  }

  /** `trim` is idempotent: a trimmed string is trimmed. */
  lemma {:induction false} TrimIdempotent(s: Bytes)
    ensures Trim(Trim(s)) == Trim(s)
  {
    TrimUntouched(Trim(s));
  }

  /** `prefix` occurs at the very start of `s`. */
  predicate StartsWith(s: Bytes, prefix: Bytes) {
    |prefix| <= |s| && s[..|prefix|] == prefix
  }

  /** `needle` occurs somewhere in `hay` as a contiguous piece. */
  predicate Contains(hay: Bytes, needle: Bytes)
    decreases |hay|
  {
    StartsWith(hay, needle) || (|hay| > 0 && Contains(hay[1..], needle))
  }

  /** A contiguous piece of a string is contained in it. */
  lemma {:induction false} ContainsInfix(a: Bytes, needle: Bytes, b: Bytes)
    ensures Contains(a + needle + b, needle)
    decreases |a|
  {
    var s := a + needle + b;
    if a == [] {
      assert s[..|needle|] == needle;
    } else {
      assert s[1..] == a[1..] + needle + b;
      ContainsInfix(a[1..], needle, b);
    }
  }

  /** A string without the character `c` contains no piece that begins with `c`. */
  lemma {:induction false} NotContainsWithoutFirst(hay: Bytes, needle: Bytes)
    requires needle != [] && needle[0] !in hay
    ensures !Contains(hay, needle)
    decreases |hay|
  {
    if |needle| <= |hay| {
      assert hay[..|needle|][0] == hay[0];
    }
    if |hay| > 0 {
      assert forall c :: c in hay[1..] ==> c in hay;
      NotContainsWithoutFirst(hay[1..], needle);
    }
  }

  /** A prefix that lacks the needle's first character neither adds nor hides an occurrence. */
  lemma {:induction false} ContainsAfterPrefix(p: Bytes, s: Bytes, needle: Bytes)
    requires needle != [] && needle[0] !in p
    ensures Contains(p + s, needle) <==> Contains(s, needle)
    decreases |p|
  {
    if p != [] {
      var ps := p + s;
      assert |needle| <= |ps| ==> ps[..|needle|][0] == p[0];
      assert ps[1..] == p[1..] + s;
      assert forall c :: c in p[1..] ==> c in p;
      ContainsAfterPrefix(p[1..], s, needle);
    } else {
      assert p + s == s;
    }
  }

  /** Position of the first `c` in `s`, or |s| when there is none. */
  function IndexOf(s: Bytes, c: byte): (k: nat)
    ensures k <= |s|
    ensures forall i :: 0 <= i < k ==> s[i] != c
    ensures k < |s| ==> s[k] == c
    ensures k == |s| <==> c !in s
  {
    if s == [] then 0 else if s[0] == c then 0 else 1 + IndexOf(s[1..], c)
  }

  /** In `x + y` where `x` has no `c` and `y` begins with `c`, the first `c` is at |x|. */
  lemma IndexOfJoin(x: Bytes, y: Bytes, c: byte)
    requires c !in x && y != [] && y[0] == c
    ensures IndexOf(x + y, c) == |x|
  {
    var s := x + y;
    assert s[|x|] == c;
    assert forall i :: 0 <= i < |x| ==> s[i] == x[i];
  }
}
