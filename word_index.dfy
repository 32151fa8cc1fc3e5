/**
 * The blocks GetTextBlocsFromPdf returns, one WordOccurence per page, and the
 * pageOccurencesPerWord dictionary the MainWindow constructor fills from them.
 */
module WordIndex {
  import opened Text
  import opened Sequences
  import opened Tokenizer

  /** A page number and the distinct words of that page. */
  datatype WordOccurence = WordOccurence(pageNumber: int, words: seq<string>)

  /** The block of each page, pages numbered from 1. */
  function BlocksOf(pages: seq<string>): seq<WordOccurence>
  {
    seq(|pages|, i requires 0 <= i < |pages| => WordOccurence(i + 1, PageWords(pages[i])))
  }

  /**
   * GetTextBlocsFromPdf over already extracted page texts: one block per page, in page
   * order, numbered 1..numberOfPages, holding that page's words.
   */
  method GetTextBlocsFromPdf(pages: seq<string>) returns (blocks: seq<WordOccurence>, numberOfPages: int)
    ensures numberOfPages == |pages| && |blocks| == numberOfPages
    ensures forall i :: 0 <= i < |blocks| ==> blocks[i].pageNumber == i + 1 && blocks[i].words == PageWords(pages[i])
    ensures blocks == BlocksOf(pages) && BlocksOfPages(blocks, pages)
  {
    blocks := [];
    numberOfPages := |pages|;
    var page := 1;
    while page <= numberOfPages
      invariant 1 <= page <= numberOfPages + 1
      invariant blocks == BlocksOf(pages[..page - 1])
    {
      var text := pages[page - 1];
      var words := PageWords(text);
      assert pages[..page] == pages[..page - 1] + [text];
      blocks := blocks + [WordOccurence(page, words)];
      page := page + 1;
    }
    assert pages[..page - 1] == pages;
  }

  /** The page-occurrence dictionary: each word mapped to the set of pages it was seen on. */
  type Index = map<string, set<int>>

  /**
   * One step of the inner loop: a word whose lower-case form is not a noise word gains the
   * page, a new key opening with just that page; a noise word leaves the index alone.
   */
  function AddWord(index: Index, common: seq<string>, page: int, word: string): (r: Index)
    ensures forall w :: w in r <==> w in index || (w == word && ToLower(word) !in common)
    ensures forall w :: w in r ==>
      r[w] == (if w in index then index[w] else {}) + (if w == word && ToLower(word) !in common then {page} else {})
  {
    if ToLower(word) in common then index
    else if word in index then index[word := index[word] + {page}]
    else index[word := {page}]
  }

  function AddWords(index: Index, common: seq<string>, page: int, words: seq<string>): Index
  {
    if |words| == 0 then index
    else AddWord(AddWords(index, common, page, words[..|words| - 1]), common, page, words[|words| - 1])
  }

  /** The dictionary after the blocks have been processed in order, from an empty one. */
  function IndexOf(blocks: seq<WordOccurence>, common: seq<string>): Index
  {
    if |blocks| == 0 then map[]
    else
      var b := blocks[|blocks| - 1];
      AddWords(IndexOf(blocks[..|blocks| - 1], common), common, b.pageNumber, b.words)
  }

  /** The nested foreach loops of the constructor, updating the dictionary in place. */
  method BuildIndex(blocks: seq<WordOccurence>, common: seq<string>) returns (index: Index)
    ensures index == IndexOf(blocks, common)
  {
    index := map[];
    var i := 0;
    while i < |blocks|
      invariant 0 <= i <= |blocks|
      invariant index == IndexOf(blocks[..i], common)
    {
      var block := blocks[i];
      var j := 0;
      while j < |block.words|
        invariant 0 <= j <= |block.words|
        invariant index == AddWords(IndexOf(blocks[..i], common), common, block.pageNumber, block.words[..j])
      {
        var word := block.words[j];
        AddWordsStep(IndexOf(blocks[..i], common), common, block.pageNumber, block.words, j);
        ghost var before := index;
        if ToLower(word) !in common {
          if word !in index {
            index := index[word := {}];
          }
          index := index[word := index[word] + {block.pageNumber}];
          if word !in before {
            FreshEntry(before, word, block.pageNumber);
          }
        }
        j := j + 1;
      }
      assert block.words[..j] == block.words;
      IndexOfStep(blocks, common, i);
      i := i + 1;
    }
    assert blocks[..i] == blocks;
  }

  lemma AddWordsStep(index: Index, common: seq<string>, page: int, words: seq<string>, j: int)
    requires 0 <= j < |words|
    ensures AddWords(index, common, page, words[..j + 1])
      == AddWord(AddWords(index, common, page, words[..j]), common, page, words[j])
  {
    assert words[..j + 1][..j] == words[..j];
  }

  lemma IndexOfStep(blocks: seq<WordOccurence>, common: seq<string>, i: int)
    requires 0 <= i < |blocks|
    ensures IndexOf(blocks[..i + 1], common)
      == AddWords(IndexOf(blocks[..i], common), common, blocks[i].pageNumber, blocks[i].words)
  {
    assert blocks[..i + 1][..i] == blocks[..i];
  }

  /** Opening an empty set for a new word and adding the page to it records just that page. */
  lemma FreshEntry(m: Index, word: string, page: int)
    requires word !in m
    ensures m[word := {}][word := m[word := {}][word] + {page}] == m[word := {page}]
  {
    assert {} + {page} == {page};
  }

  /** Page p is recorded for w: some block of page p holds w, and w is not a noise word. */
  predicate Recorded(blocks: seq<WordOccurence>, common: seq<string>, w: string, p: int)
  {
    ToLower(w) !in common && exists i :: 0 <= i < |blocks| && blocks[i].pageNumber == p && w in blocks[i].words
  }

  lemma {:induction false} AddWordsContents(index: Index, common: seq<string>, page: int, words: seq<string>, w: string, p: int)
    ensures var r := AddWords(index, common, page, words);
      (w in r && p in r[w]) <==> (w in index && p in index[w]) || (p == page && w in words && ToLower(w) !in common)
    ensures var r := AddWords(index, common, page, words);
      w in r <==> w in index || (w in words && ToLower(w) !in common)
    ensures (forall k :: k in index ==> index[k] != {}) ==> forall k :: k in AddWords(index, common, page, words) ==> AddWords(index, common, page, words)[k] != {}
    decreases |words|
  {
    if |words| > 0 {
      var init := words[..|words| - 1];
      AddWordsContents(index, common, page, init, w, p);
      assert words == init + [words[|words| - 1]];
      var r := AddWords(index, common, page, init);
      if (forall k :: k in index ==> index[k] != {}) {
        assert forall k :: k in r ==> r[k] != {};
      }
    }
  }

  /**
   * The dictionary holds exactly what was recorded: page p is in the set of w iff some
   * block of page p contains w and w's lower-case form is not a noise word; w is a key iff
   * it occurs in some block and is not a noise word; and no key has an empty set.
   */
  lemma {:induction false} IndexContents(blocks: seq<WordOccurence>, common: seq<string>, w: string, p: int)
    ensures var idx := IndexOf(blocks, common); (w in idx && p in idx[w]) <==> Recorded(blocks, common, w, p)
    ensures var idx := IndexOf(blocks, common);
      w in idx <==> ToLower(w) !in common && exists i :: 0 <= i < |blocks| && w in blocks[i].words
    ensures var idx := IndexOf(blocks, common); forall k :: k in idx ==> idx[k] != {}
    decreases |blocks|
  {
    if |blocks| > 0 {
      var init := blocks[..|blocks| - 1];
      var b := blocks[|blocks| - 1];
      IndexContents(init, common, w, p);
      AddWordsContents(IndexOf(init, common), common, b.pageNumber, b.words, w, p);
      assert forall i :: 0 <= i < |init| ==> init[i] == blocks[i];
      if Recorded(blocks, common, w, p) && !(p == b.pageNumber && w in b.words) {
        var i :| 0 <= i < |blocks| && blocks[i].pageNumber == p && w in blocks[i].words;
        assert i < |init|;
      }
    }
  }

  /** Blocks numbered 1, 2, ... in order, as GetTextBlocsFromPdf makes them. */
  predicate NumberedInOrder(blocks: seq<WordOccurence>)
  {
    forall i :: 0 <= i < |blocks| ==> blocks[i].pageNumber == i + 1
  }

  lemma RecordedNumbered(blocks: seq<WordOccurence>, common: seq<string>, w: string, p: int)
    requires NumberedInOrder(blocks)
    ensures Recorded(blocks, common, w, p) <==> 1 <= p <= |blocks| && w in blocks[p - 1].words && ToLower(w) !in common
  {
    if 1 <= p <= |blocks| && w in blocks[p - 1].words && ToLower(w) !in common {
      assert blocks[p - 1].pageNumber == p;
    }
  }

  /** For blocks numbered in order, page p is in the set of w iff block p holds w and w is not a noise word. */
  lemma IndexOfNumbered(blocks: seq<WordOccurence>, common: seq<string>, w: string, p: int)
    requires NumberedInOrder(blocks)
    ensures var idx := IndexOf(blocks, common);
      (w in idx && p in idx[w]) <==> 1 <= p <= |blocks| && w in blocks[p - 1].words && ToLower(w) !in common
  {
    IndexContents(blocks, common, w, p);
    RecordedNumbered(blocks, common, w, p);
  }

  /** blocks are the blocks GetTextBlocsFromPdf makes of the page texts. */
  predicate BlocksOfPages(blocks: seq<WordOccurence>, pages: seq<string>)
  {
    |blocks| == |pages| && NumberedInOrder(blocks)
    && forall i :: 0 <= i < |blocks| ==> blocks[i].words == PageWords(pages[i])
  }

  lemma BlocksOfIsBlocksOfPages(pages: seq<string>)
    ensures BlocksOfPages(BlocksOf(pages), pages)
  {
  }

  /**
   * For the blocks of a document, page p is in the set of w iff 1 <= p <= the number of
   * pages, w is one of the words of page p, and w is not a noise word.
   */
  lemma IndexOfPages(blocks: seq<WordOccurence>, pages: seq<string>, common: seq<string>, w: string, p: int)
    requires BlocksOfPages(blocks, pages)
    ensures var idx := IndexOf(blocks, common);
      (w in idx && p in idx[w]) <==> 1 <= p <= |pages| && w in PageWords(pages[p - 1]) && ToLower(w) !in common
  {
    IndexOfNumbered(blocks, common, w, p);
  }

  /** Every key of a document's index is a word as the tokenizer emits it, so is lower-case. */
  lemma IndexKeysAreNormalWords(blocks: seq<WordOccurence>, pages: seq<string>, common: seq<string>, w: string)
    requires BlocksOfPages(blocks, pages)
    requires w in IndexOf(blocks, common)
    ensures IsNormalWord(w) && ToLower(w) == w
  {
    IndexContents(blocks, common, w, 0);
    var i :| 0 <= i < |blocks| && w in blocks[i].words;
    var k :| 0 <= k < |blocks[i].words| && blocks[i].words[k] == w;
  }

  /** Two noise lists that agree on the lower-case forms of every word of the blocks give the same index. */
  lemma {:induction false} SameNoiseDecisionsSameIndex(blocks: seq<WordOccurence>, c1: seq<string>, c2: seq<string>)
    requires forall i, k :: 0 <= i < |blocks| && 0 <= k < |blocks[i].words| ==>
      (ToLower(blocks[i].words[k]) in c1 <==> ToLower(blocks[i].words[k]) in c2)
    ensures IndexOf(blocks, c1) == IndexOf(blocks, c2)
    decreases |blocks|
  {
    if |blocks| > 0 {
      var init := blocks[..|blocks| - 1];
      var b := blocks[|blocks| - 1];
      assert forall i :: 0 <= i < |init| ==> init[i] == blocks[i];
      SameNoiseDecisionsSameIndex(init, c1, c2);
      AddWordsAgree(IndexOf(init, c1), c1, c2, b.pageNumber, b.words);
    }
  }

  lemma {:induction false} AddWordsAgree(index: Index, c1: seq<string>, c2: seq<string>, page: int, words: seq<string>)
    requires forall k :: 0 <= k < |words| ==> (ToLower(words[k]) in c1 <==> ToLower(words[k]) in c2)
    ensures AddWords(index, c1, page, words) == AddWords(index, c2, page, words)
    decreases |words|
  {
    if |words| > 0 {
      AddWordsAgree(index, c1, c2, page, words[..|words| - 1]);
    }
  }

  /** The entries of a noise list that have no upper-case letter. */
  function WithoutUpper(common: seq<string>): (r: seq<string>)
    ensures forall w :: w in r <==> w in common && !HasUpper(w)
  {
    if |common| == 0 then []
    else
      var r := WithoutUpper(common[..|common| - 1]);
      var e := common[|common| - 1];
      assert common == common[..|common| - 1] + [e];
      if HasUpper(e) then r else r + [e]
  }

  /**
   * Noise entries are compared with lower-cased words, so an entry with an upper-case letter
   * never suppresses anything: dropping all such entries leaves the index unchanged, for any blocks.
   */
  lemma NoiseWithUpperNeverMatches(blocks: seq<WordOccurence>, common: seq<string>)
    ensures IndexOf(blocks, common) == IndexOf(blocks, WithoutUpper(common))
  {
    SameNoiseDecisionsSameIndex(blocks, common, WithoutUpper(common));
  }
}
