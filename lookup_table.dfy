/**
 * The lookup table the MainWindow constructor builds: for every indexed word, in ascending
 * order, that passes the coverage filter, one line "word<TAB>compacted pages<LF>".
 */
module LookupTable {
  import opened Text
  import opened Sequences
  import opened Numerals
  import opened Ordering
  import opened Tokenizer
  import opened Intervals
  import opened WordIndex

  /**
   * The coverage filter, count < numberOfPages * 0.5 unless the document has fewer than 4
   * pages: every word of a short document, otherwise only words on fewer than half of the pages.
   */
  function Qualifies(count: int, numberOfPages: int): (kept: bool)
    ensures kept <==> numberOfPages < 4 || 2 * count < numberOfPages
  {
    numberOfPages < 4 || (count as real) < (numberOfPages as real) * 0.5
  }

  /** The compacted page list of one word: its pages in ascending order, compacted and joined with ", ". */
  function PageList(pageNumbers: set<int>): (text: string)
    ensures Expand(text) == SortedInts(pageNumbers)
  {
    CompactRoundTrip(SortedInts(pageNumbers));
    Join(", ", CompactNumbersIntoIntervals(SortedInts(pageNumbers)))
  }

  /**
   * The line of one word: the word, a tab and its page list, ended by an LF. Without the LF it
   * holds no LF when the word holds none, and it reads back as the word and its pages in order.
   */
  function Line(word: string, pageNumbers: set<int>): (line: string)
    ensures |line| > 0 && line[|line| - 1] == '\n'
    ensures '\n' !in word ==> '\n' !in line[..|line| - 1]
    ensures '\t' !in word ==> ReadRow(line[..|line| - 1]) == Row(word, SortedInts(pageNumbers))
  {
    var l := word + "\t" + PageList(pageNumbers);
    PageListAvoids(pageNumbers, '\n');
    ReadLine(word, pageNumbers);
    assert (l + "\n")[..|l|] == l;
    l + "\n"
  }

  /** What the formatting loop has appended after visiting keys, in that order. */
  function TableOf(keys: seq<string>, index: Index, numberOfPages: int): string
    requires forall i :: 0 <= i < |keys| ==> keys[i] in index
  {
    if |keys| == 0 then ""
    else
      var w := keys[|keys| - 1];
      TableOf(keys[..|keys| - 1], index, numberOfPages)
        + if Qualifies(|index[w]|, numberOfPages) then Line(w, index[w]) else ""
  }

  /** One more key appends its line when it qualifies, and nothing otherwise. */
  lemma TableOfStep(keys: seq<string>, i: int, index: Index, numberOfPages: int)
    requires 0 <= i < |keys| && forall k :: 0 <= k < |keys| ==> keys[k] in index
    ensures TableOf(keys[..i + 1], index, numberOfPages) == TableOf(keys[..i], index, numberOfPages)
      + if Qualifies(|index[keys[i]]|, numberOfPages) then Line(keys[i], index[keys[i]]) else ""
  {
    assert keys[..i + 1][..i] == keys[..i];
  }

  /** The formatting loop: visits the keys in ascending order and appends one line per qualifying word. */
  method FormatTable(index: Index, numberOfPages: int) returns (lookupTable: string)
    ensures lookupTable == TableOf(SortedStrings(index.Keys), index, numberOfPages)
  {
    lookupTable := "";
    var keys := SortedStrings(index.Keys);
    var i := 0;
    while i < |keys|
      invariant 0 <= i <= |keys|
      invariant lookupTable == TableOf(keys[..i], index, numberOfPages)
    {
      var word := keys[i];
      var pageNumbers := index[word];
      TableOfStep(keys, i, index, numberOfPages);
      if numberOfPages < 4 || (|pageNumbers| as real) < (numberOfPages as real) * 0.5 {
        var pageNumberString := PageList(pageNumbers);
        lookupTable := lookupTable + (word + "\t" + pageNumberString + "\n");
      }
      i := i + 1;
    }
    assert keys[..i] == keys;
  }

  /** The table a noise-word text and a document's page texts give. */
  function LookupTableOf(noiseText: string, pages: seq<string>): string
  {
    var index := IndexOf(BlocksOf(pages), NoiseWords(noiseText));
    TableOf(SortedStrings(index.Keys), index, |pages|)
  }

  /**
   * The MainWindow constructor with its file, dialog and clipboard calls replaced by the
   * noise-word text and the page texts in, and the table out.
   */
  method BuildLookupTable(noiseText: string, pages: seq<string>) returns (lookupTable: string)
    ensures lookupTable == LookupTableOf(noiseText, pages)
  {
    var commonWords := NoiseWords(noiseText);
    var blocks, numberOfPages := GetTextBlocsFromPdf(pages);
    var pageOccurencesPerWord := BuildIndex(blocks, commonWords);
    lookupTable := FormatTable(pageOccurencesPerWord, numberOfPages);
  }

  /** One line of a table read back: the text before its first tab, and the page numbers after it. */
  datatype Row = Row(word: string, pageNumbers: seq<int>)

  function ReadRow(line: string): Row
  {
    var t := IndexOfChar(line, '\t');
    if t < |line| then Row(line[..t], Expand(line[t + 1..])) else Row(line, [])
  }

  /** Reads a table back, each LF ending one line. */
  function ReadTable(table: string): seq<Row>
  {
    var lines := SplitOn(table, "\n");
    seq(|lines| - 1, i requires 0 <= i < |lines| - 1 => ReadRow(lines[i]))
  }

  /** The keys, in their order, that pass the coverage filter. */
  function Qualifying(keys: seq<string>, index: Index, numberOfPages: int): (ws: seq<string>)
    requires forall i :: 0 <= i < |keys| ==> keys[i] in index
    ensures forall i :: 0 <= i < |ws| ==> ws[i] in keys && Qualifies(|index[ws[i]]|, numberOfPages)
    ensures forall i :: 0 <= i < |keys| && Qualifies(|index[keys[i]]|, numberOfPages) ==> keys[i] in ws
  {
    if |keys| == 0 then []
    else
      var init := keys[..|keys| - 1];
      var w := keys[|keys| - 1];
      var ws := Qualifying(init, index, numberOfPages);
      assert keys == init + [w];
      if Qualifies(|index[w]|, numberOfPages) then ws + [w] else ws
  }

  /** The lines (without their LF) of the qualifying words. */
  function LinesOf(ws: seq<string>, index: Index): seq<string>
    requires forall i :: 0 <= i < |ws| ==> ws[i] in index
  {
    seq(|ws|, i requires 0 <= i < |ws| => ws[i] + "\t" + PageList(index[ws[i]]))
  }

  /** The rows a reader of the table should find: each qualifying word with its pages in ascending order. */
  function RowsOf(ws: seq<string>, index: Index): seq<Row>
    requires forall i :: 0 <= i < |ws| ==> ws[i] in index
  {
    seq(|ws|, i requires 0 <= i < |ws| => Row(ws[i], SortedInts(index[ws[i]])))
  }

  lemma TerminatedJoin(lines: seq<string>, l: string)
    ensures Join("\n", lines + [l] + [""]) == Join("\n", lines + [""]) + l + "\n"
  {
    assert Join("\n", [""]) == "";
    assert Join("\n", [l, ""]) == l + "\n" + "";
    if |lines| > 0 {
      assert lines + [l] + [""] == lines + [l, ""];
      JoinAppend("\n", lines, [l, ""]);
      JoinAppend("\n", lines, [""]);
    } else {
      assert lines + [l] + [""] == [l, ""];
      assert lines + [""] == [""];
    }
  }

  lemma LinesOfSnoc(ws: seq<string>, w: string, index: Index)
    requires forall i :: 0 <= i < |ws| ==> ws[i] in index
    requires w in index
    ensures LinesOf(ws + [w], index) == LinesOf(ws, index) + [w + "\t" + PageList(index[w])]
  {
  }

  /** The table is the qualifying words' lines, each ended by an LF. */
  lemma {:induction false} TableJoinsLines(keys: seq<string>, index: Index, numberOfPages: int)
    requires forall i :: 0 <= i < |keys| ==> keys[i] in index
    ensures TableOf(keys, index, numberOfPages) == Join("\n", LinesOf(Qualifying(keys, index, numberOfPages), index) + [""])
    decreases |keys|
  {
    if |keys| == 0 {
      assert LinesOf([], index) + [""] == [""];
    } else {
      var init := keys[..|keys| - 1];
      var w := keys[|keys| - 1];
      TableJoinsLines(init, index, numberOfPages);
      var ws := Qualifying(init, index, numberOfPages);
      if Qualifies(|index[w]|, numberOfPages) {
        var l := w + "\t" + PageList(index[w]);
        LinesOfSnoc(ws, w, index);
        TerminatedJoin(LinesOf(ws, index), l);
      }
    }
  }

  lemma RenderGroupAvoids(g: seq<int>, c: char)
    requires !IsAsciiDigit(c) && c != '-' && c != ',' && c != ' '
    ensures c !in RenderGroup(g)
  {
    if |g| >= 3 {
      IntToStringAvoids(g[0], c);
      IntToStringAvoids(g[|g| - 1], c);
    } else {
      forall i | 0 <= i < |g| ensures c !in IntStrings(g)[i] {
        IntToStringAvoids(g[i], c);
      }
      JoinAvoids(", ", IntStrings(g), c);
    }
  }

  /** No character other than digits, '-', ',' and ' ' occurs in a page list. */
  lemma PageListAvoids(pageNumbers: set<int>, c: char)
    requires !IsAsciiDigit(c) && c != '-' && c != ',' && c != ' '
    ensures c !in PageList(pageNumbers)
  {
    var ns := SortedInts(pageNumbers);
    var pieces := CompactNumbersIntoIntervals(ns);
    forall k | 0 <= k < |pieces| ensures c !in pieces[k] {
      RenderGroupAvoids(Runs(ns)[k], c);
    }
    JoinAvoids(", ", pieces, c);
  }

  lemma ReadLine(w: string, pageNumbers: set<int>)
    ensures '\t' !in w ==> ReadRow(w + "\t" + PageList(pageNumbers)) == Row(w, SortedInts(pageNumbers))
  {
    if '\t' !in w {
      var line := w + "\t" + PageList(pageNumbers);
      assert forall k :: 0 <= k < |w| ==> line[k] == w[k] && line[k] != '\t';
      assert line[|w|] == '\t';
      assert IndexOfChar(line, '\t') == |w|;
      assert line[..|w|] == w && line[|w| + 1..] == PageList(pageNumbers);
    }
  }

  /** Lines without an LF, each ended by one, read back one row per line. */
  lemma ReadJoinedLines(lines: seq<string>)
    requires forall i :: 0 <= i < |lines| ==> '\n' !in lines[i]
    ensures ReadTable(Join("\n", lines + [""])) == seq(|lines|, i requires 0 <= i < |lines| => ReadRow(lines[i]))
  {
    var all := lines + [""];
    forall i | 0 <= i < |all| ensures "\n"[0] !in all[i] {
      if i < |lines| { assert all[i] == lines[i]; }
    }
    SplitOnJoin(all, "\n");
  }

  lemma LinesAvoidLF(ws: seq<string>, index: Index)
    requires forall i :: 0 <= i < |ws| ==> ws[i] in index && '\n' !in ws[i]
    ensures forall i :: 0 <= i < |LinesOf(ws, index)| ==> '\n' !in LinesOf(ws, index)[i]
  {
    forall i | 0 <= i < |ws| ensures '\n' !in LinesOf(ws, index)[i] {
      PageListAvoids(index[ws[i]], '\n');
    }
  }

  /** The lines of words free of tab and LF, each ended by an LF, read back as their rows. */
  lemma ReadLines(ws: seq<string>, index: Index)
    requires forall i :: 0 <= i < |ws| ==> ws[i] in index && '\n' !in ws[i] && '\t' !in ws[i]
    ensures ReadTable(Join("\n", LinesOf(ws, index) + [""])) == RowsOf(ws, index)
  {
    var lines := LinesOf(ws, index);
    LinesAvoidLF(ws, index);
    ReadJoinedLines(lines);
    forall i | 0 <= i < |ws| ensures ReadRow(lines[i]) == RowsOf(ws, index)[i] {
      ReadLine(ws[i], index[ws[i]]);
    }
  }

  /**
   * Reading a table back gives, in key order, exactly the qualifying words, each with its
   * pages in ascending order: the formatting loses nothing.
   */
  lemma ReadTableOf(keys: seq<string>, index: Index, numberOfPages: int)
    requires forall i :: 0 <= i < |keys| ==> keys[i] in index && SeparatorFree(keys[i])
    ensures ReadTable(TableOf(keys, index, numberOfPages)) == RowsOf(Qualifying(keys, index, numberOfPages), index)
  {
    var ws := Qualifying(keys, index, numberOfPages);
    forall i | 0 <= i < |ws| ensures '\n' !in ws[i] && '\t' !in ws[i] {
      var k :| 0 <= k < |keys| && keys[k] == ws[i];
    }
    TableJoinsLines(keys, index, numberOfPages);
    ReadLines(ws, index);
  }

  /** Filtering keeps the keys' order. */
  lemma {:induction false} QualifyingAscending(keys: seq<string>, index: Index, numberOfPages: int)
    requires forall i :: 0 <= i < |keys| ==> keys[i] in index
    requires StrictlyAscending(keys)
    ensures StrictlyAscending(Qualifying(keys, index, numberOfPages))
    decreases |keys|
  {
    if |keys| > 0 {
      var init := keys[..|keys| - 1];
      var w := keys[|keys| - 1];
      assert StrictlyAscending(init) by {
        forall i, j | 0 <= i < j < |init| ensures StringLess(init[i], init[j]) {
          assert init[i] == keys[i] && init[j] == keys[j];
        }
      }
      QualifyingAscending(init, index, numberOfPages);
      var ws := Qualifying(init, index, numberOfPages);
      if Qualifies(|index[w]|, numberOfPages) {
        var r := ws + [w];
        forall i, j | 0 <= i < j < |r| ensures StringLess(r[i], r[j]) {
          if j == |ws| {
            assert r[i] == ws[i] && ws[i] in init;
            var k :| 0 <= k < |init| && init[k] == ws[i];
            assert keys[k] == ws[i];
          } else {
            assert r[i] == ws[i] && r[j] == ws[j];
          }
        }
      }
    }
  }

  /** w is one of the words of page p (numbered from 1) and not a noise word. */
  predicate OnPage(pages: seq<string>, common: seq<string>, w: string, p: int)
  {
    1 <= p <= |pages| && w in PageWords(pages[p - 1]) && ToLower(w) !in common
  }

  /** The pages a word is recorded on: those whose words include it, unless it is a noise word. */
  function DocumentPages(pages: seq<string>, common: seq<string>, w: string): set<int>
  {
    set p | 1 <= p <= |pages| && OnPage(pages, common, w, p)
  }

  lemma SetOfPages(entry: set<int>, pages: seq<string>, common: seq<string>, w: string)
    requires forall p :: p in entry <==> OnPage(pages, common, w, p)
    ensures entry == DocumentPages(pages, common, w)
  {
  }

  /** The dictionary holds w exactly when w is recorded on some page, and then holds its pages. */
  lemma IndexIsDocumentPages(blocks: seq<WordOccurence>, pages: seq<string>, common: seq<string>, w: string)
    requires BlocksOfPages(blocks, pages)
    ensures var idx := IndexOf(blocks, common);
      (w in idx <==> DocumentPages(pages, common, w) != {})
      && (w in idx ==> idx[w] == DocumentPages(pages, common, w))
  {
    var idx := IndexOf(blocks, common);
    var d := DocumentPages(pages, common, w);
    forall p ensures (w in idx && p in idx[w]) <==> OnPage(pages, common, w, p) {
      IndexOfPages(blocks, pages, common, w, p);
    }
    IndexContents(blocks, common, w, 0);
    if w in idx {
      SetOfPages(idx[w], pages, common, w);
    }
  }

  predicate HasRow(rows: seq<Row>, w: string)
  {
    exists i :: 0 <= i < |rows| && rows[i].word == w
  }

  lemma RowsOfFacts(ws: seq<string>, index: Index)
    requires forall i :: 0 <= i < |ws| ==> ws[i] in index
    requires StrictlyAscending(ws)
    ensures var rows := RowsOf(ws, index);
      (forall i, j :: 0 <= i < j < |rows| ==> StringLess(rows[i].word, rows[j].word))
      && (forall w :: HasRow(rows, w) <==> w in ws)
      && (forall i :: 0 <= i < |rows| ==> rows[i].word in index && rows[i].pageNumbers == SortedInts(index[rows[i].word]))
  {
    var rows := RowsOf(ws, index);
    forall w ensures HasRow(rows, w) <==> w in ws {
      if w in ws {
        var i :| 0 <= i < |ws| && ws[i] == w;
        assert rows[i].word == w;
      }
    }
  }

  /** What a reader of the table of a document finds, in terms of the dictionary. */
  lemma TableReadsAsIndex(index: Index, numberOfPages: int)
    requires forall w :: w in index ==> SeparatorFree(w)
    ensures var rows := ReadTable(TableOf(SortedStrings(index.Keys), index, numberOfPages));
      (forall i, j :: 0 <= i < j < |rows| ==> StringLess(rows[i].word, rows[j].word))
      && (forall w :: HasRow(rows, w) <==> w in index && Qualifies(|index[w]|, numberOfPages))
      && (forall i :: 0 <= i < |rows| ==> rows[i].word in index && rows[i].pageNumbers == SortedInts(index[rows[i].word]))
  {
    var keys := SortedStrings(index.Keys);
    ReadTableOf(keys, index, numberOfPages);
    SortedStringsAscending(index.Keys);
    QualifyingAscending(keys, index, numberOfPages);
    var ws := Qualifying(keys, index, numberOfPages);
    RowsOfFacts(ws, index);
    forall w ensures w in ws <==> w in index && Qualifies(|index[w]|, numberOfPages) {
      if w in index && Qualifies(|index[w]|, numberOfPages) {
        var k :| 0 <= k < |keys| && keys[k] == w;
      }
    }
  }

  /**
   * Read back, the table of a document lists in ascending order exactly the words recorded
   * on some page and passing the coverage filter, each with all its pages in ascending order.
   */
  lemma DocumentTable(blocks: seq<WordOccurence>, pages: seq<string>, common: seq<string>)
    requires BlocksOfPages(blocks, pages)
    ensures var idx := IndexOf(blocks, common);
      var rows := ReadTable(TableOf(SortedStrings(idx.Keys), idx, |pages|));
      (forall i, j :: 0 <= i < j < |rows| ==> StringLess(rows[i].word, rows[j].word))
      && (forall w :: HasRow(rows, w) <==>
            DocumentPages(pages, common, w) != {} && Qualifies(|DocumentPages(pages, common, w)|, |pages|))
      && (forall i :: 0 <= i < |rows| ==> rows[i].pageNumbers == SortedInts(DocumentPages(pages, common, rows[i].word)))
  {
    var idx := IndexOf(blocks, common);
    forall w | w in idx ensures SeparatorFree(w) {
      IndexKeysAreNormalWords(blocks, pages, common, w);
    }
    TableReadsAsIndex(idx, |pages|);
    forall w ensures (w in idx <==> DocumentPages(pages, common, w) != {})
      && (w in idx ==> idx[w] == DocumentPages(pages, common, w))
    {
      IndexIsDocumentPages(blocks, pages, common, w);
    }
    TransferRows(ReadTable(TableOf(SortedStrings(idx.Keys), idx, |pages|)), idx, pages, common);
  }

  /** Rows that read as a dictionary read as the document that dictionary was built from. */
  lemma TransferRows(rows: seq<Row>, idx: Index, pages: seq<string>, common: seq<string>)
    requires forall w :: HasRow(rows, w) <==> w in idx && Qualifies(|idx[w]|, |pages|)
    requires forall i :: 0 <= i < |rows| ==> rows[i].word in idx && rows[i].pageNumbers == SortedInts(idx[rows[i].word])
    requires forall w ::
      (w in idx <==> DocumentPages(pages, common, w) != {}) && (w in idx ==> idx[w] == DocumentPages(pages, common, w))
    ensures forall w :: (HasRow(rows, w) <==>
      DocumentPages(pages, common, w) != {} && Qualifies(|DocumentPages(pages, common, w)|, |pages|))
    ensures forall i :: 0 <= i < |rows| ==> rows[i].pageNumbers == SortedInts(DocumentPages(pages, common, rows[i].word))
  {
  }

  /** The same for the table the MainWindow constructor builds from a noise-word text and the page texts. */
  lemma LookupTableReadsBack(noiseText: string, pages: seq<string>)
    ensures var rows := ReadTable(LookupTableOf(noiseText, pages));
      var common := NoiseWords(noiseText);
      (forall i, j :: 0 <= i < j < |rows| ==> StringLess(rows[i].word, rows[j].word))
      && (forall w :: HasRow(rows, w) <==>
            DocumentPages(pages, common, w) != {} && Qualifies(|DocumentPages(pages, common, w)|, |pages|))
      && (forall i :: 0 <= i < |rows| ==> rows[i].pageNumbers == SortedInts(DocumentPages(pages, common, rows[i].word)))
  {
    BlocksOfIsBlocksOfPages(pages);
    DocumentTable(BlocksOf(pages), pages, NoiseWords(noiseText));
  }

  /** A word of the noise-word text never gets a line of its own. */
  lemma NoiseWordNotListed(noiseText: string, pages: seq<string>, w: string)
    requires w in NoiseWords(noiseText)
    ensures !HasRow(ReadTable(LookupTableOf(noiseText, pages)), w)
  {
    LookupTableReadsBack(noiseText, pages);
    var common := NoiseWords(noiseText);
    forall p ensures !OnPage(pages, common, w, p) {
      if 1 <= p <= |pages| && w in PageWords(pages[p - 1]) {
        assert !HasUpper(w);
      }
    }
    assert DocumentPages(pages, common, w) == {};
  }

  /** A word on all 5 pages of a 5-page document is left out; one on all 3 pages of a 3-page document is kept. */
  lemma CoverageExamples()
    ensures !Qualifies(5, 5) && Qualifies(3, 3)
  {
  }
}
