/**
 Byte-string helpers shared by the request reader and the response writer:
 ASCII text as bytes, substring search, CRLF-separated lines and the decimal
 rendering that `std::ostream << size_t` produces.
 */
module Text {
  import opened Bytes

  const CR: byte := 13
  const LF: byte := 10
  const CRLF: seq<byte> := [CR, LF]
  /** The request terminator `read_until` waits for. */
  const BLANK_LINE: seq<byte> := [CR, LF, CR, LF]

  predicate IsAscii(s: string) {
    forall i :: 0 <= i < |s| ==> s[i] as int < 128
  }

  /** The bytes of an ASCII string literal. */
  function Ascii(s: string): (r: seq<byte>)
    requires IsAscii(s)
    ensures |r| == |s|
    ensures forall i :: 0 <= i < |s| ==> r[i] == s[i] as int
  {
    seq(|s|, i requires 0 <= i < |s| => s[i] as int)
  }

  // ---------------------------------------------------------------- search

  /** `p` occurs in `s` starting at index `i`. */
  predicate OccursAt(s: seq<byte>, p: seq<byte>, i: nat) {
    i + |p| <= |s| && s[i..i + |p|] == p
  }

  /** The first occurrence of `p` in `s` at or after `from`, if any. */
  function IndexFrom(s: seq<byte>, p: seq<byte>, from: nat): (r: Option<nat>)
    decreases |s| - from
    ensures r.Some? ==> from <= r.value && OccursAt(s, p, r.value)
    ensures r.Some? ==> forall j: nat :: from <= j < r.value ==> !OccursAt(s, p, j)
    ensures r.None? ==> forall j: nat :: from <= j ==> !OccursAt(s, p, j)
  {
    if from + |p| > |s| then None
    else if s[from..from + |p|] == p then Some(from)
    else IndexFrom(s, p, from + 1)
  }

  /** The first occurrence of `p` in `s`, if any. */
  function IndexOf(s: seq<byte>, p: seq<byte>): (r: Option<nat>)
    ensures r.Some? ==> OccursAt(s, p, r.value) && forall j: nat :: j < r.value ==> !OccursAt(s, p, j)
    ensures r.None? <==> forall j: nat :: !OccursAt(s, p, j)
  {
    IndexFrom(s, p, 0)
  }

  /** An occurrence with none before it is the one `IndexOf` finds. */
  lemma IndexOfIsFirst(s: seq<byte>, p: seq<byte>, k: nat)
    requires OccursAt(s, p, k)
    requires forall j: nat :: j < k ==> !OccursAt(s, p, j)
    ensures IndexOf(s, p) == Some(k)
  {
  }

  /** An occurrence inside the prefix `a` of `a + b` is an occurrence in `a`. */
  lemma OccursInPrefix(a: seq<byte>, b: seq<byte>, p: seq<byte>, j: nat)
    requires j + |p| <= |a|
    ensures OccursAt(a + b, p, j) <==> OccursAt(a, p, j)
  {
    assert (a + b)[j..j + |p|] == a[j..j + |p|];
  }

  /** Occurrences past the prefix `a` of `a + b` are occurrences in `b`, shifted. */
  lemma OccursShift(a: seq<byte>, b: seq<byte>, p: seq<byte>, j: nat)
    ensures OccursAt(a + b, p, |a| + j) <==> OccursAt(b, p, j)
  {
    if j + |p| <= |b| {
      assert (a + b)[|a| + j..|a| + j + |p|] == b[j..j + |p|];
    }
  }

  /** A match found in `a` is still the first match once `b` is appended. */
  lemma IndexOfAppend(a: seq<byte>, b: seq<byte>, p: seq<byte>)
    requires IndexOf(a, p).Some?
    ensures IndexOf(a + b, p) == IndexOf(a, p)
  {
    var k := IndexOf(a, p).value;
    OccursInPrefix(a, b, p, k);
    forall j: nat | j < k
      ensures !OccursAt(a + b, p, j)
    {
      OccursInPrefix(a, b, p, j);
    }
    IndexOfIsFirst(a + b, p, k);
  }

  // ----------------------------------------------------------------- lines

  /** A line of text: no CR and no LF inside it. */
  predicate TextLine(l: seq<byte>) {
    forall i :: 0 <= i < |l| ==> l[i] != CR && l[i] != LF
  }

  /** The lines `ls`, each separated from the next by CRLF. */
  function JoinLines(ls: seq<seq<byte>>): seq<byte>
    requires |ls| > 0
    decreases |ls|
  {
    if |ls| == 1 then ls[0] else ls[0] + CRLF + JoinLines(ls[1..])
  }

  /** `s` cut at every CRLF. */
  function SplitLines(s: seq<byte>): (ls: seq<seq<byte>>)
    decreases |s|
    ensures |ls| > 0
  {
    match IndexOf(s, CRLF)
    case None => [s]
    case Some(k) => [s[..k]] + SplitLines(s[k + 2..])
  }

  /** In a text line followed by CRLF, the first CRLF is the one after the line. */
  lemma FirstCrlfAfterLine(l: seq<byte>, rest: seq<byte>)
    requires TextLine(l)
    ensures IndexOf(l + CRLF + rest, CRLF) == Some(|l|)
  {
    var s := l + CRLF + rest;
    assert s[|l|..|l| + 2] == CRLF;
    forall j: nat | j < |l|
      ensures !OccursAt(s, CRLF, j)
    {
      assert s[j] == l[j];
    }
    IndexOfIsFirst(s, CRLF, |l|);
  }

  /** A text line holds no CRLF. */
  lemma NoCrlfInTextLine(l: seq<byte>)
    requires TextLine(l)
    ensures IndexOf(l, CRLF).None?
  {
    forall j: nat
      ensures !OccursAt(l, CRLF, j)
    {
      if j + 2 <= |l| {
        assert l[j..j + 2][0] == l[j] != CR;
      }
    }
  }

  /** Splitting joined text lines gives back the lines. */
  lemma {:induction false} SplitJoin(ls: seq<seq<byte>>)
    requires |ls| > 0
    requires forall i :: 0 <= i < |ls| ==> TextLine(ls[i])
    ensures SplitLines(JoinLines(ls)) == ls
    decreases |ls|
  {
    if |ls| == 1 {
      NoCrlfInTextLine(ls[0]);
    } else {
      var rest := JoinLines(ls[1..]);
      FirstCrlfAfterLine(ls[0], rest);
      var s := ls[0] + CRLF + rest;
      assert s[..|ls[0]|] == ls[0];
      assert s[|ls[0]| + 2..] == rest;
      SplitJoin(ls[1..]);
      assert [ls[0]] + ls[1..] == ls;
    }
  }

  /** Joining the pieces of a split gives back the text. */
  lemma {:induction false} JoinSplit(s: seq<byte>)
    ensures JoinLines(SplitLines(s)) == s
    decreases |s|
  {
    match IndexOf(s, CRLF)
    case None =>
    case Some(k) =>
      JoinSplit(s[k + 2..]);
      var ls := SplitLines(s);
      assert ls[1..] == SplitLines(s[k + 2..]);
      assert s[k..k + 2] == CRLF;
      assert s == s[..k] + CRLF + s[k + 2..];
  }

  // --------------------------------------------------------------- decimal

  predicate IsDigit(b: byte) {
    '0' as int <= b <= '9' as int
  }

  predicate AllDigits(ds: seq<byte>) {
    forall i :: 0 <= i < |ds| ==> IsDigit(ds[i])
  }

  /** A canonical decimal numeral: at least one digit, no leading zero unless it is "0". */
  predicate Canonical(ds: seq<byte>) {
    |ds| > 0 && AllDigits(ds) && (ds[0] == '0' as int ==> |ds| == 1)
  }

  /** The decimal numeral `std::ostream` writes for an unsigned integer in the classic locale. */
  function Decimal(n: nat): (r: seq<byte>)
    decreases n
    ensures Canonical(r)
  {
    if n < 10 then [48 + n] else Decimal(n / 10) + [48 + n % 10]
  }

  /** The number a run of decimal digits denotes, most significant digit first. */
  function DigitsValue(ds: seq<byte>): nat
    requires AllDigits(ds)
    decreases |ds|
  {
    if |ds| == 0 then 0
    else 10 * DigitsValue(ds[..|ds| - 1]) + (ds[|ds| - 1] - '0' as int)
  }

  /** The value of a header field holding a decimal number. */
  function ParseDecimal(ds: seq<byte>): Option<nat>
  {
    if |ds| > 0 && AllDigits(ds) then Some(DigitsValue(ds)) else None
  }

  /** Parsing the rendered numeral of `n` gives `n`. */
  lemma {:induction false} ParseDecimalRoundTrip(n: nat)
    ensures ParseDecimal(Decimal(n)) == Some(n)
    decreases n
  {
    var ds := Decimal(n);
    if n < 10 {
      assert ds[..|ds| - 1] == [];
      assert DigitsValue(ds) == 10 * DigitsValue([]) + n;
    } else {
      ParseDecimalRoundTrip(n / 10);
      assert ds[..|ds| - 1] == Decimal(n / 10);
    }
  }

  /** A canonical numeral that does not start with "0" denotes at least one. */
  lemma {:induction false} CanonicalPositive(ds: seq<byte>)
    requires Canonical(ds) && ds[0] != '0' as int
    ensures DigitsValue(ds) >= 1
    decreases |ds|
  {
    if |ds| > 1 {
      CanonicalPositive(ds[..|ds| - 1]);
    }
  }

  /** Every canonical numeral is the rendering of the number it denotes. */
  lemma {:induction false} DecimalRoundTrip(ds: seq<byte>)
    requires Canonical(ds)
    ensures Decimal(DigitsValue(ds)) == ds
    decreases |ds|
  {
    if |ds| > 1 {
      var init := ds[..|ds| - 1];
      CanonicalPositive(ds);
      CanonicalPositive(init);
      DecimalRoundTrip(init);
      assert init + [ds[|ds| - 1]] == ds;
    }
  }
}
