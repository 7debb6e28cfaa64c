/**
 Decimal rendering of non-negative integers, as Python's `str(n)` and an
 f-string produce it, and reading it back.
 */
module Decimal {

  predicate IsDigit(c: char) {
    '0' <= c <= '9'
  }

  predicate AllDigits(s: string) {
    forall i :: 0 <= i < |s| ==> IsDigit(s[i])
  }

  function DigitChar(d: nat): (c: char)
    requires d < 10
    ensures IsDigit(c)
  {
    (48 + d) as char
  }

  function DigitValue(c: char): nat
    requires IsDigit(c)
  {
    c as int - 48
  }

  /** `str(n)` for `n >= 0`: at least one digit, and no leading zero unless `n == 0`. */
  function Digits(n: nat): (r: string)
    ensures r != [] && AllDigits(r)
    ensures r[0] == '0' ==> n == 0
    decreases n
  {
    if n < 10 then [DigitChar(n)] else Digits(n / 10) + [DigitChar(n % 10)]
  }

  /** `int(s)` for a string of ASCII digits. */
  function ParseDigits(s: string): nat
    requires AllDigits(s)
    decreases |s|
  {
    if s == [] then 0 else 10 * ParseDigits(s[..|s| - 1]) + DigitValue(s[|s| - 1])
  }

  lemma {:induction false} DigitsRoundTrip(n: nat)
    ensures ParseDigits(Digits(n)) == n
    decreases n
  {
    if n >= 10 {
      var d := Digits(n);
      assert d[..|d| - 1] == Digits(n / 10);
      DigitsRoundTrip(n / 10);
    }
  }

  /** Splits `s` into the longest all-digit suffix and what precedes it. */
  function SplitTrailingDigits(s: string): (r: (string, string))
    ensures r.0 + r.1 == s && AllDigits(r.1)
    ensures r.0 != [] ==> !IsDigit(r.0[|r.0| - 1])
    decreases |s|
  {
    if s != [] && IsDigit(s[|s| - 1]) then
      var (pre, ds) := SplitTrailingDigits(s[..|s| - 1]);
      assert pre + (ds + [s[|s| - 1]]) == s[..|s| - 1] + [s[|s| - 1]];
      (pre, ds + [s[|s| - 1]])
    else
      (s, [])
  }

  /** When `pre` does not end in a digit, the all-digit suffix of `pre + ds` is exactly `ds`. */
  lemma {:induction false} SplitTrailingDigitsOf(pre: string, ds: string)
    requires AllDigits(ds)
    requires pre != [] ==> !IsDigit(pre[|pre| - 1])
    ensures SplitTrailingDigits(pre + ds) == (pre, ds)
    decreases |ds|
  {
    if ds == [] {
      assert pre + ds == pre;
    } else {
      var n := |ds| - 1;
      assert (pre + ds)[..|pre + ds| - 1] == pre + ds[..n];
      SplitTrailingDigitsOf(pre, ds[..n]);
      assert ds[..n] + [ds[n]] == ds;
    }
  }
}

/**
 The identifier the ingestion code gives a stored chunk:
 `f"{pdf_name}_page{page_number}_chunk{offset}"`, and reading it back.
 */
module ChunkIds {
  import opened Text
  import opened Decimal

  datatype Option<T> = None | Some(value: T)

  datatype ChunkKey = ChunkKey(docName: string, pageNumber: nat, offset: nat)

  const PageTag := "_page"
  const ChunkTag := "_chunk"

  function ChunkId(docName: string, pageNumber: nat, offset: nat): string {
    docName + PageTag + Digits(pageNumber) + ChunkTag + Digits(offset)
  }

  /** Reads an identifier from the right: the digits after the last `_chunk`,
      then the digits after the last `_page` before it, then the document name. */
  function ParseChunkId(id: string): Option<ChunkKey> {
    var (a, offsetDigits) := SplitTrailingDigits(id);
    if offsetDigits == [] || !EndsWith(a, ChunkTag) then None
    else
      var (b, pageDigits) := SplitTrailingDigits(a[..|a| - |ChunkTag|]);
      if pageDigits == [] || !EndsWith(b, PageTag) then None
      else Some(ChunkKey(b[..|b| - |PageTag|], ParseDigits(pageDigits), ParseDigits(offsetDigits)))
  }

  /** A string that ends in `tag` (whose last character is not a digit)
      followed by digits splits back at that point. */
  lemma SplitAfterTag(pre: string, tag: string, ds: string)
    requires tag != [] && !IsDigit(tag[|tag| - 1]) && AllDigits(ds)
    ensures var r := SplitTrailingDigits(pre + tag + ds);
            r.0 == pre + tag && r.1 == ds && EndsWith(r.0, tag) && r.0[..|r.0| - |tag|] == pre
  {
    assert pre + tag + ds == (pre + tag) + ds;
    SplitTrailingDigitsOf(pre + tag, ds);
    assert (pre + tag)[|pre + tag| - |tag|..] == tag;
    assert (pre + tag)[..|pre + tag| - |tag|] == pre;
  }

  /** Every identifier reads back as the key it was built from, whatever the document name. */
  lemma ChunkIdRoundTrip(docName: string, pageNumber: nat, offset: nat)
    ensures ParseChunkId(ChunkId(docName, pageNumber, offset)) == Some(ChunkKey(docName, pageNumber, offset))
  {
    var pd, od := Digits(pageNumber), Digits(offset);
    var b := docName + PageTag + pd;
    assert ChunkId(docName, pageNumber, offset) == b + ChunkTag + od;
    SplitAfterTag(b, ChunkTag, od);
    SplitAfterTag(docName, PageTag, pd);
    DigitsRoundTrip(pageNumber);
    DigitsRoundTrip(offset);
  }

  /** Two chunks share an identifier only if they share document name, page number and offset. */
  lemma ChunkIdInjective(k1: ChunkKey, k2: ChunkKey)
    requires ChunkId(k1.docName, k1.pageNumber, k1.offset) == ChunkId(k2.docName, k2.pageNumber, k2.offset)
    ensures k1 == k2
  {
    ChunkIdRoundTrip(k1.docName, k1.pageNumber, k1.offset);
    ChunkIdRoundTrip(k2.docName, k2.pageNumber, k2.offset);
  }
}
