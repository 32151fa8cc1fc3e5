/**
 * The per-page tokenizer of GetTextBlocsFromPdf and the noise-word loader of the
 * MainWindow constructor: both split on "\r\n", "\n", " " and "\t" and trim; page words
 * are further stripped of non-alphanumeric ends, lower-cased, made distinct and kept only
 * when longer than one character.
 */
module Tokenizer {
  import opened Text
  import opened Sequences

  /** The shape of every word the tokenizer emits for a page. */
  predicate IsNormalWord(w: string)
  {
    |w| >= 2 && IsAsciiAlnum(w[0]) && IsAsciiAlnum(w[|w| - 1]) && !HasUpper(w) && SeparatorFree(w)
  }

  /** Trim, then drop the leading [^a-zA-Z0-9]+ and the trailing [^a-zA-Z0-9]+. */
  function StrippedCore(t: string): (c: string)
    ensures c != [] ==> IsAsciiAlnum(c[0]) && IsAsciiAlnum(c[|c| - 1])
  {
    Strip(Trim(t), NonAlnum)
  }

  /**
   * StrippedCore removes only non-alphanumeric characters, and only at the two ends:
   * it is the slice t[lo..hi], and everything outside that slice is non-alphanumeric.
   */
  lemma StrippedCoreIsSlice(t: string) returns (lo: int, hi: int)
    ensures StrippedBetween(t, StrippedCore(t), lo, hi, NonAlnum)
  {
    var a, b := LeadingRun(t, WhiteSpace), StripEnd(t, WhiteSpace);
    assert Trim(t) == t[a..b];
    lo, hi := StripNested(t, a, b, NonAlnum);
  }

  /** The normalisation of one token: its stripped core, lower-cased. */
  function NormalizeToken(t: string): (w: string)
    ensures w != [] ==> IsAsciiAlnum(w[0]) && IsAsciiAlnum(w[|w| - 1])
    ensures !HasUpper(w)
  {
    ToLower(StrippedCore(t))
  }

  lemma NormalizeTokenSeparatorFree(t: string)
    requires SeparatorFree(t)
    ensures SeparatorFree(NormalizeToken(t))
  {
    var lo, hi := StrippedCoreIsSlice(t);
    SliceSeparatorFree(t, lo, hi);
  }

  /** Normalising is idempotent: a normalised token normalises to itself. */
  lemma NormalizeTokenIdempotent(t: string)
    ensures NormalizeToken(NormalizeToken(t)) == NormalizeToken(t)
  {
    CoreUnchanged(NormalizeToken(t));
  }

  /** A string with alphanumeric ends is its own stripped core. */
  lemma CoreUnchanged(w: string)
    requires w != [] ==> IsAsciiAlnum(w[0]) && IsAsciiAlnum(w[|w| - 1])
    ensures StrippedCore(w) == w
  {
    if w != [] {
      assert !InClass(w[0], WhiteSpace) && !InClass(w[|w| - 1], WhiteSpace);
      assert !InClass(w[0], NonAlnum) && !InClass(w[|w| - 1], NonAlnum);
    }
    StripUnchanged(w, WhiteSpace);
    StripUnchanged(w, NonAlnum);
  }

  /** The words a page's tokens normalise to, in token order. */
  function NormalizeAll(ts: seq<string>): seq<string>
  {
    seq(|ts|, i requires 0 <= i < |ts| => NormalizeToken(ts[i]))
  }

  /** LINQ Where(w => w.Length > 1), keeping order. */
  function LongerThanOne(ws: seq<string>): (r: seq<string>)
    ensures forall i :: 0 <= i < |r| ==> |r[i]| > 1 && r[i] in ws
    ensures forall i :: 0 <= i < |ws| && |ws[i]| > 1 ==> ws[i] in r
    ensures NoDuplicates(ws) ==> NoDuplicates(r)
  {
    if |ws| == 0 then []
    else
      var r := LongerThanOne(ws[..|ws| - 1]);
      var w := ws[|ws| - 1];
      assert ws == ws[..|ws| - 1] + [w];
      assert forall i :: 0 <= i < |r| ==> r[i] in ws[..|ws| - 1];
      if |w| > 1 then r + [w] else r
  }

  /** w is the normalisation of one of the tokens of a page text. */
  predicate NormalizesFrom(text: string, w: string)
  {
    exists j :: 0 <= j < |Split(text)| && NormalizeToken(Split(text)[j]) == w
  }

  /** What NormalizeToken gives for a separator-free token: IsNormalWord but for the length. */
  predicate IsNormalized(w: string)
  {
    (w != [] ==> IsAsciiAlnum(w[0]) && IsAsciiAlnum(w[|w| - 1])) && !HasUpper(w) && SeparatorFree(w)
  }

  lemma NormalizeAllNormalized(ts: seq<string>)
    requires forall j :: 0 <= j < |ts| ==> SeparatorFree(ts[j])
    ensures forall j :: 0 <= j < |ts| ==> IsNormalized(NormalizeAll(ts)[j])
  {
    forall j | 0 <= j < |ts| ensures IsNormalized(NormalizeAll(ts)[j]) {
      NormalizeTokenSeparatorFree(ts[j]);
    }
  }

  lemma KeptAreNormalWords(ns: seq<string>)
    requires forall j :: 0 <= j < |ns| ==> IsNormalized(ns[j])
    ensures forall i :: 0 <= i < |LongerThanOne(Distinct(ns))| ==> IsNormalWord(LongerThanOne(Distinct(ns))[i])
  {
    var ds := Distinct(ns);
    forall k | 0 <= k < |ds| ensures IsNormalized(ds[k]) {
      var j :| 0 <= j < |ns| && ns[j] == ds[k];
    }
    var ws := LongerThanOne(ds);
    forall i | 0 <= i < |ws| ensures IsNormalWord(ws[i]) {
      var k :| 0 <= k < |ds| && ds[k] == ws[i];
    }
  }

  /**
   * The words of one page (GetTextBlocsFromPdf): split, trim, strip non-alphanumeric ends,
   * lower-case, Distinct, then keep the words longer than one character. They are distinct,
   * and each is a lower-case word with alphanumeric ends and no separator in it.
   */
  function PageWords(text: string): (ws: seq<string>)
    ensures NoDuplicates(ws)
    ensures forall i :: 0 <= i < |ws| ==> IsNormalWord(ws[i])
  {
    NormalizeAllNormalized(Split(text));
    KeptAreNormalWords(NormalizeAll(Split(text)));
    LongerThanOne(Distinct(NormalizeAll(Split(text))))
  }

  /** Distinct, then the length filter, keeps exactly the elements longer than one character. */
  lemma KeptExactly(ns: seq<string>, w: string)
    ensures w in LongerThanOne(Distinct(ns)) <==> |w| > 1 && w in ns
  {
    var ds := Distinct(ns);
    if w in LongerThanOne(ds) {
      assert w in ds;
      var k :| 0 <= k < |ds| && ds[k] == w;
    }
    if |w| > 1 && w in ns {
      var j :| 0 <= j < |ns| && ns[j] == w;
      assert w in ds;
      var k :| 0 <= k < |ds| && ds[k] == w;
    }
  }

  lemma NormalizeAllExactly(ts: seq<string>, w: string)
    ensures w in NormalizeAll(ts) <==> exists j :: 0 <= j < |ts| && NormalizeToken(ts[j]) == w
  {
    var ns := NormalizeAll(ts);
    if w in ns {
      var j :| 0 <= j < |ns| && ns[j] == w;
      assert NormalizeToken(ts[j]) == w;
    }
    if exists j :: 0 <= j < |ts| && NormalizeToken(ts[j]) == w {
      var j :| 0 <= j < |ts| && NormalizeToken(ts[j]) == w;
      assert ns[j] == w;
    }
  }

  /** The words of a page are exactly its normalised tokens that are longer than one character. */
  lemma PageWordsExactly(text: string, w: string)
    ensures w in PageWords(text) <==> |w| > 1 && NormalizesFrom(text, w)
  {
    KeptExactly(NormalizeAll(Split(text)), w);
    NormalizeAllExactly(Split(text), w);
  }

  /** LINQ Select(w => w.Trim()) over the tokens. */
  function TrimAll(ts: seq<string>): seq<string>
  {
    seq(|ts|, i requires 0 <= i < |ts| => Trim(ts[i]))
  }

  /** w is the trimmed form of one of the tokens of the noise-word text. */
  predicate TrimsFrom(text: string, w: string)
  {
    exists j :: 0 <= j < |Split(text)| && Trim(Split(text)[j]) == w
  }

  /**
   * The noise-word list of the MainWindow constructor: split, trim, Distinct. The entries
   * are distinct; they are not lower-cased.
   */
  function NoiseWords(text: string): (ns: seq<string>)
    ensures NoDuplicates(ns)
    ensures |ns| <= |Split(text)|
  {
    Distinct(TrimAll(Split(text)))
  }

  /** The noise words are exactly the trimmed tokens of the noise-word text. */
  lemma {:induction false} NoiseWordsExactly(text: string, w: string)
    ensures w in NoiseWords(text) <==> TrimsFrom(text, w)
  {
    var ts := TrimAll(Split(text));
    var ns := NoiseWords(text);
    if w in ns {
      var i :| 0 <= i < |ns| && ns[i] == w;
      assert w in ts;
      var j :| 0 <= j < |ts| && ts[j] == w;
      assert Trim(Split(text)[j]) == w;
    }
    if TrimsFrom(text, w) {
      var j :| 0 <= j < |Split(text)| && Trim(Split(text)[j]) == w;
      assert ts[j] == w;
    }
  }
}
