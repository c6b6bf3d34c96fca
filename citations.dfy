/**
 * The "where this came from" strings that accompany an answer: one entry
 * per retrieved document, numbered from 1, naming the document by the last
 * component of its source path and carrying the excerpt and its relevance
 * score.
 */
module SourceCitations {
  import opened Common

  /**
   * A retrieved document as the engine reports it: its `source` path, the
   * excerpt (`page_content`) and the relevance `score`. The score is a
   * float in the service; here it is kept as the text it prints as.
   */
  datatype SourceDoc = SourceDoc(source: string, content: string, score: string)

  /** `os.path.split(path)[-1]` with POSIX separators. */
  function Basename(path: string): string
    decreases |path|
  {
    if path == [] || path[|path| - 1] == '/' then ""
    else Basename(path[..|path| - 1]) + [path[|path| - 1]]
  }

  /**
   * The basename is the longest suffix of `path` without a '/': everything
   * after the last '/', or the whole path when it has none.
   */
  lemma {:induction false} BasenameIsLastComponent(path: string)
    ensures '/' !in Basename(path)
    ensures |Basename(path)| <= |path| && Basename(path) == path[|path| - |Basename(path)|..]
    ensures |Basename(path)| < |path| ==> path[|path| - |Basename(path)| - 1] == '/'
    decreases |path|
  {
    if path != [] && path[|path| - 1] != '/' {
      var init := path[..|path| - 1];
      var c := path[|path| - 1];
      BasenameIsLastComponent(init);
      var b := Basename(init);
      assert Basename(path) == b + [c];
      assert path == init + [c];
      assert path[|path| - |b| - 1..] == init[|init| - |b|..] + [c];
      if |b| + 1 < |path| {
        assert path[|path| - |b| - 2] == init[|init| - |b| - 1];
      }
    }
  }

  predicate IsDigit(c: char) {
    '0' <= c <= '9'
  }

  function DigitChar(d: nat): (c: char)
    requires d < 10
  {
    ('0' as int + d) as char
  }

  /** `str(n)` for a natural number: decimal digits, no leading zero. */
  function Decimal(n: nat): (r: string)
    ensures r != [] && forall i :: 0 <= i < |r| ==> IsDigit(r[i])
    ensures |r| > 1 ==> r[0] != '0'
    decreases n
  {
    if n < 10 then [DigitChar(n)] else Decimal(n / 10) + [DigitChar(n % 10)]
  }

  /** The number a string of decimal digits denotes. */
  function DigitsValue(s: string): nat
    requires forall i :: 0 <= i < |s| ==> IsDigit(s[i])
  {
    if s == [] then 0 else 10 * DigitsValue(s[..|s| - 1]) + DigitValue(s[|s| - 1])
  }

  function DigitValue(c: char): (d: nat)
    requires IsDigit(c)
  {
    c as int - '0' as int
  }

  /** Reading back the decimal text of `n` gives `n`. */
  lemma {:induction false} DecimalValue(n: nat)
    ensures DigitsValue(Decimal(n)) == n
  {
    if n >= 10 {
      DecimalValue(n / 10);
      var d := Decimal(n);
      assert d[..|d| - 1] == Decimal(n / 10);
    }
  }

  const CitationHead: string := "出处 ["

  /** The entry for the document at 1-based position `ordinal`. */
  function Citation(ordinal: nat, doc: SourceDoc): string {
    CitationHead + Decimal(ordinal) + CitationTail(doc)
  }

  /** What follows the ordinal: the basename, the excerpt and the score. */
  function CitationTail(doc: SourceDoc): string {
    "] " + Basename(doc.source) + "：\n\n" + doc.content + "\n\n" + "相关度：" + doc.score + "\n\n"
  }

  /** The citations of `docs`, the first one numbered `ordinal`. */
  function CitationsFrom(ordinal: nat, docs: seq<SourceDoc>): seq<string>
    decreases |docs|
  {
    if docs == [] then [] else [Citation(ordinal, docs[0])] + CitationsFrom(ordinal + 1, docs[1..])
  }

  /** One citation per document, in order, the one for document i numbered `ordinal + i`. */
  lemma {:induction false} CitationsFromEntries(ordinal: nat, docs: seq<SourceDoc>)
    ensures |CitationsFrom(ordinal, docs)| == |docs|
    ensures forall i :: 0 <= i < |docs| ==> CitationsFrom(ordinal, docs)[i] == Citation(ordinal + i, docs[i])
    decreases |docs|
  {
    if docs != [] {
      var rest := CitationsFrom(ordinal + 1, docs[1..]);
      CitationsFromEntries(ordinal + 1, docs[1..]);
      assert CitationsFrom(ordinal, docs) == [Citation(ordinal, docs[0])] + rest;
      forall i | 0 < i < |docs| ensures CitationsFrom(ordinal, docs)[i] == Citation(ordinal + i, docs[i]) {
        assert CitationsFrom(ordinal, docs)[i] == rest[i - 1];
        assert docs[1..][i - 1] == docs[i];
        assert ordinal + 1 + (i - 1) == ordinal + i;
      }
    }
  }

  /** The list comprehension over `enumerate(resp["source_documents"])`. */
  function Citations(docs: seq<SourceDoc>): seq<string> {
    CitationsFrom(1, docs)
  }

  /** The longest prefix of `s` made of decimal digits. */
  function LeadingDigits(s: string): (r: string)
    ensures r <= s && forall i :: 0 <= i < |r| ==> IsDigit(r[i])
    decreases |s|
  {
    if s != [] && IsDigit(s[0]) then [s[0]] + LeadingDigits(s[1..]) else ""
  }

  /** The ordinal a citation carries: the digits that follow its fixed head. */
  function OrdinalOf(c: string): Option<nat> {
    if |c| < |CitationHead| || c[..|CitationHead|] != CitationHead then None
    else
      var ds := LeadingDigits(c[|CitationHead|..]);
      if ds == [] then None else Some(DigitsValue(ds))
  }

  lemma {:induction false} LeadingDigitsOf(ds: string, rest: string)
    requires forall i :: 0 <= i < |ds| ==> IsDigit(ds[i])
    requires rest == [] || !IsDigit(rest[0])
    ensures LeadingDigits(ds + rest) == ds
    decreases |ds|
  {
    if ds == [] {
      assert ds + rest == rest;
    } else {
      assert (ds + rest)[1..] == ds[1..] + rest;
      LeadingDigitsOf(ds[1..], rest);
    }
  }

  /** Every citation can be read back as carrying the ordinal it was made with. */
  lemma CitationOrdinal(ordinal: nat, doc: SourceDoc)
    ensures OrdinalOf(Citation(ordinal, doc)) == Some(ordinal)
  {
    var digits := Decimal(ordinal);
    var tail := CitationTail(doc);
    var c := Citation(ordinal, doc);
    assert c == CitationHead + (digits + tail);
    assert c[..|CitationHead|] == CitationHead;
    assert c[|CitationHead|..] == digits + tail;
    LeadingDigitsOf(digits, tail);
    DecimalValue(ordinal);
  }

  /**
   * The citation list has one entry per source document, in the same order,
   * and the entry at position i carries ordinal i + 1 and the basename of
   * document i's source path.
   */
  lemma CitationsNumbered(docs: seq<SourceDoc>)
    ensures |Citations(docs)| == |docs|
    ensures forall i :: 0 <= i < |docs| ==> OrdinalOf(Citations(docs)[i]) == Some(i + 1)
    ensures forall i :: 0 <= i < |docs| ==>
      Citations(docs)[i] == CitationHead + Decimal(i + 1) + CitationTail(docs[i])
  {
    CitationsFromEntries(1, docs);
    forall i | 0 <= i < |docs|
      ensures OrdinalOf(Citations(docs)[i]) == Some(i + 1)
    {
      CitationOrdinal(i + 1, docs[i]);
    }
  }
}
