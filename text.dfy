/**
 * Characters and strings as the tokenizer sees them: the ASCII character classes of its
 * regular expressions, lower-casing, trimming, the end-stripping of a character class,
 * String.Split on "\r\n", "\n", " " and "\t", and the ordinal order of strings.
 */
module Text {
  import opened Sequences

  predicate IsAsciiUpper(c: char) { 'A' <= c <= 'Z' }

  predicate IsAsciiLower(c: char) { 'a' <= c <= 'z' }

  predicate IsAsciiDigit(c: char) { '0' <= c <= '9' }

  /** The character class [a-zA-Z0-9]. */
  predicate IsAsciiAlnum(c: char) { IsAsciiUpper(c) || IsAsciiLower(c) || IsAsciiDigit(c) }

  /** The character class [^a-zA-Z0-9]. */
  predicate IsNonAlnum(c: char) { !IsAsciiAlnum(c) }

  /** The white space Trim removes, restricted to ASCII: tab, LF, VT, FF, CR and space. */
  predicate IsWhiteSpace(c: char) { c == ' ' || '\t' <= c <= '\r' }

  /** The two character classes the pipeline strips from token ends. */
  datatype CharClass = WhiteSpace | NonAlnum

  predicate InClass(c: char, k: CharClass)
  {
    match k
    case WhiteSpace => IsWhiteSpace(c)
    case NonAlnum => IsNonAlnum(c)
  }

  predicate HasUpper(s: string) { exists i :: 0 <= i < |s| && IsAsciiUpper(s[i]) }

  function LowerChar(c: char): char
  {
    if IsAsciiUpper(c) then (c as int + 32) as char else c
  }

  /** ToLower on ASCII letters: every upper-case letter becomes its lower-case form, nothing else changes. */
  function ToLower(s: string): (r: string)
    ensures |r| == |s|
    ensures !HasUpper(r)
    ensures forall i :: 0 <= i < |s| ==> (IsAsciiAlnum(r[i]) <==> IsAsciiAlnum(s[i]))
    ensures forall i :: 0 <= i < |s| ==> if IsAsciiUpper(s[i]) then r[i] as int == s[i] as int + 32 else r[i] == s[i]
    ensures !HasUpper(s) ==> r == s
  {
    seq(|s|, i requires 0 <= i < |s| => LowerChar(s[i]))
  }

  /** The length of the longest prefix of s whose characters are all in class k. */
  function LeadingRun(s: string, k: CharClass): (n: nat)
    ensures n <= |s|
    ensures forall i :: 0 <= i < n ==> InClass(s[i], k)
    ensures n < |s| ==> !InClass(s[n], k)
  {
    if |s| > 0 && InClass(s[0], k) then 1 + LeadingRun(s[1..], k) else 0
  }

  /** The length of the longest suffix of s whose characters are all in class k. */
  function TrailingRun(s: string, k: CharClass): (n: nat)
    ensures n <= |s|
    ensures forall i :: |s| - n <= i < |s| ==> InClass(s[i], k)
    ensures n < |s| ==> !InClass(s[|s| - n - 1], k)
  {
    if |s| > 0 && InClass(s[|s| - 1], k) then 1 + TrailingRun(s[..|s| - 1], k) else 0
  }

  /** An anchored "^[class]+" replaced by "": the longest prefix in class k removed. */
  function DropLeading(s: string, k: CharClass): string
  {
    s[LeadingRun(s, k)..]
  }

  /**
   * r is what the leading removal leaves exactly when r is a suffix of s, everything before
   * it is in class k, and its first character (if any) is not.
   */
  lemma DropLeadingExactly(s: string, k: CharClass, r: string)
    ensures r == DropLeading(s, k) <==>
      |r| <= |s| && r == s[|s| - |r|..] && (forall i :: 0 <= i < |s| - |r| ==> InClass(s[i], k))
      && (r != [] ==> !InClass(r[0], k))
  {
  }

  /** An anchored "[class]+$" replaced by "": the longest suffix in class k removed. */
  function DropTrailing(s: string, k: CharClass): string
  {
    s[..|s| - TrailingRun(s, k)]
  }

  /**
   * r is what the trailing removal leaves exactly when r is a prefix of s, everything after
   * it is in class k, and its last character (if any) is not.
   */
  lemma DropTrailingExactly(s: string, k: CharClass, r: string)
    ensures r == DropTrailing(s, k) <==>
      |r| <= |s| && r == s[..|r|] && (forall i :: |r| <= i < |s| ==> InClass(s[i], k))
      && (r != [] ==> !InClass(r[|r| - 1], k))
  {
  }

  /** r is s[lo..hi], and every character of s outside that slice is in class k. */
  predicate StrippedBetween(s: string, r: string, lo: int, hi: int, k: CharClass)
  {
    0 <= lo <= hi <= |s| && r == s[lo..hi]
    && (forall i :: 0 <= i < lo ==> InClass(s[i], k))
    && (forall i :: hi <= i < |s| ==> InClass(s[i], k))
  }

  /** Where Strip(s, k) ends in s; it starts at LeadingRun(s, k). */
  function StripEnd(s: string, k: CharClass): nat
  {
    |s| - TrailingRun(DropLeading(s, k), k)
  }

  /**
   * Both anchored removals, leading first: the result is the slice of s between the longest
   * prefix and the longest following suffix in class k, and neither of its ends is in k.
   */
  function Strip(s: string, k: CharClass): (r: string)
    ensures LeadingRun(s, k) <= StripEnd(s, k)
    ensures StrippedBetween(s, r, LeadingRun(s, k), StripEnd(s, k), k)
    ensures r != [] ==> !InClass(r[0], k) && !InClass(r[|r| - 1], k)
  {
    var a := DropLeading(s, k);
    StripFacts(s, a, DropTrailing(a, k), LeadingRun(s, k), TrailingRun(a, k), StripEnd(s, k), k);
    DropTrailing(a, k)
  }

  /**
   * The facts behind Strip, with the two run lengths given: lo is cut from the front of s,
   * then n from the back of a, so that r ends in s at hi.
   */
  lemma StripFacts(s: string, a: string, r: string, lo: nat, n: nat, hi: int, k: CharClass)
    requires lo <= |s| && a == s[lo..]
    requires forall i :: 0 <= i < lo ==> InClass(s[i], k)
    requires lo < |s| ==> !InClass(s[lo], k)
    requires n <= |a| && r == a[..|a| - n]
    requires forall i :: |a| - n <= i < |a| ==> InClass(a[i], k)
    requires n < |a| ==> !InClass(a[|a| - n - 1], k)
    requires hi == |s| - n
    ensures lo <= hi
    ensures StrippedBetween(s, r, lo, hi, k)
    ensures r != [] ==> !InClass(r[0], k) && !InClass(r[|r| - 1], k)
  {
    TrailingInClass(s, lo, n, k);
    SliceOfSuffix(s, lo, n);
    if r != [] {
      assert r[0] == s[lo];
      assert r[|r| - 1] == a[|a| - n - 1];
    }
  }

  lemma TrailingInClass(s: string, lo: nat, n: nat, k: CharClass)
    requires lo <= |s| && n <= |s| - lo
    requires forall i :: |s[lo..]| - n <= i < |s[lo..]| ==> InClass(s[lo..][i], k)
    ensures forall i :: |s| - n <= i < |s| ==> InClass(s[i], k)
  {
    var a := s[lo..];
    forall i | |s| - n <= i < |s| ensures InClass(s[i], k) {
      assert s[i] == a[i - lo];
    }
  }

  lemma SliceOfSuffix(s: string, lo: nat, n: nat)
    requires lo <= |s| && n <= |s| - lo
    ensures s[lo..][..|s| - lo - n] == s[lo..|s| - n]
  {
  }
  /** Stripping leaves alone a string neither of whose ends is in the class. */
  lemma StripUnchanged(s: string, k: CharClass)
    requires s != [] ==> !InClass(s[0], k) && !InClass(s[|s| - 1], k)
    ensures Strip(s, k) == s
  {
    assert LeadingRun(s, k) == 0;
    assert DropLeading(s, k) == s;
    assert TrailingRun(s, k) == 0;
  }

  /** A slice of a slice is a slice. */
  lemma SliceOfSlice(s: string, lo: int, hi: int, i: int, j: int)
    requires 0 <= lo <= hi <= |s| && 0 <= i <= j <= hi - lo
    ensures s[lo..hi][i..j] == s[lo + i..lo + j]
  {
    assert forall m :: 0 <= m < j - i ==> s[lo..hi][i..j][m] == s[lo + i + m];
  }

  /** Stripping class k from a slice of s taken by a k-stripping is again a k-stripping of s. */
  lemma StripNested(s: string, lo: int, hi: int, k: CharClass) returns (lo2: int, hi2: int)
    requires 0 <= lo <= hi <= |s| && StrippedBetween(s, s[lo..hi], lo, hi, k)
    ensures lo <= lo2 <= hi2 <= hi
    ensures StrippedBetween(s, Strip(s[lo..hi], k), lo2, hi2, k)
  {
    var a := s[lo..hi];
    lo2 := lo + LeadingRun(a, k);
    hi2 := lo + StripEnd(a, k);
    StripNestedAt(s, lo, hi, LeadingRun(a, k), StripEnd(a, k), lo2, hi2, Strip(a, k), k);
  }

  /** StripNested with the cut points of the inner stripping given, in the slice (i0, j0) and in s (lo2, hi2). */
  lemma StripNestedAt(s: string, lo: int, hi: int, i0: int, j0: int, lo2: int, hi2: int, r: string, k: CharClass)
    requires 0 <= lo <= hi <= |s| && StrippedBetween(s, s[lo..hi], lo, hi, k)
    requires 0 <= i0 <= j0 <= hi - lo && StrippedBetween(s[lo..hi], r, i0, j0, k)
    requires lo2 == lo + i0 && hi2 == lo + j0
    ensures StrippedBetween(s, r, lo2, hi2, k)
  {
    SliceOfSlice(s, lo, hi, i0, j0);
    CutInClass(s, lo, hi, i0, j0, k);
    StrippedWithin(s, r, lo, hi, lo2, hi2, k);
  }

  /** A k-stripping of s that is cut down further, by k-characters only, is again one. */
  lemma StrippedWithin(s: string, r: string, lo: int, hi: int, lo2: int, hi2: int, k: CharClass)
    requires 0 <= lo <= lo2 <= hi2 <= hi <= |s| && StrippedBetween(s, s[lo..hi], lo, hi, k) && r == s[lo2..hi2]
    requires forall i :: lo <= i < lo2 ==> InClass(s[i], k)
    requires forall i :: hi2 <= i < hi ==> InClass(s[i], k)
    ensures StrippedBetween(s, r, lo2, hi2, k)
  {
  }

  /** What a k-stripping cuts off the slice s[lo..hi] is, in s, in class k. */
  lemma CutInClass(s: string, lo: int, hi: int, i0: int, j0: int, k: CharClass)
    requires 0 <= lo <= hi <= |s| && 0 <= i0 <= j0 <= hi - lo
    requires forall i :: 0 <= i < i0 ==> InClass(s[lo..hi][i], k)
    requires forall i :: j0 <= i < hi - lo ==> InClass(s[lo..hi][i], k)
    ensures forall i :: lo <= i < lo + i0 ==> InClass(s[i], k)
    ensures forall i :: lo + j0 <= i < hi ==> InClass(s[i], k)
  {
    var a := s[lo..hi];
    forall i | lo <= i < lo + i0 ensures InClass(s[i], k) {
      assert s[i] == a[i - lo];
    }
    forall i | lo + j0 <= i < hi ensures InClass(s[i], k) {
      assert s[i] == a[i - lo];
    }
  }

  /** A slice of a separator-free string is separator-free. */
  lemma SliceSeparatorFree(t: string, lo: int, hi: int)
    requires 0 <= lo <= hi <= |t| && SeparatorFree(t)
    ensures SeparatorFree(t[lo..hi])
  {
    assert forall i :: 0 <= i < hi - lo ==> t[lo..hi][i] == t[lo + i];
  }

  /** String.Trim: s without its leading and trailing white space, everything between kept. */
  function Trim(s: string): (r: string)
    ensures StrippedBetween(s, r, LeadingRun(s, WhiteSpace), StripEnd(s, WhiteSpace), WhiteSpace)
    ensures r != [] ==> !IsWhiteSpace(r[0]) && !IsWhiteSpace(r[|r| - 1])
  {
    Strip(s, WhiteSpace)
  }

  /**
   * The length of the separator String.Split recognises at the head of s: the separators
   * "\r\n", "\n", " " and "\t" are tried in that order, so a CR counts only before an LF.
   */
  function SeparatorAt(s: string): nat
  {
    if |s| >= 2 && s[0] == '\r' && s[1] == '\n' then 2
    else if |s| >= 1 && (s[0] == '\n' || s[0] == ' ' || s[0] == '\t') then 1
    else 0
  }

  /** The token cur, unless it is empty (StringSplitOptions.RemoveEmptyEntries). */
  function Emit(cur: string): seq<string>
  {
    if cur == "" then [] else [cur]
  }

  predicate SeparatorFree(t: string)
  {
    forall k :: 0 <= k < |t| ==> t[k] != '\n' && t[k] != ' ' && t[k] != '\t'
  }

  /** Splitting s when the token collected so far is cur. */
  function SplitFrom(s: string, cur: string): (r: seq<string>)
    requires SeparatorFree(cur)
    ensures forall k :: 0 <= k < |r| ==> r[k] != "" && SeparatorFree(r[k])
    decreases |s|
  {
    if |s| == 0 then Emit(cur)
    else if SeparatorAt(s) > 0 then Emit(cur) + SplitFrom(s[SeparatorAt(s)..], "")
    else SplitFrom(s[1..], cur + [s[0]])
  }

  /** String.Split(new[] { "\r\n", "\n", " ", "\t" }, StringSplitOptions.RemoveEmptyEntries). */
  function Split(s: string): (r: seq<string>)
    ensures forall k :: 0 <= k < |r| ==> r[k] != "" && SeparatorFree(r[k])
  {
    SplitFrom(s, "")
  }

  /** s with every separator occurrence, as Split recognises them, removed. */
  function WithoutSeparators(s: string): string
    decreases |s|
  {
    if |s| == 0 then ""
    else if SeparatorAt(s) > 0 then WithoutSeparators(s[SeparatorAt(s)..])
    else [s[0]] + WithoutSeparators(s[1..])
  }

  lemma {:induction false} SplitFromKeepsText(s: string, cur: string)
    requires SeparatorFree(cur)
    ensures Flatten(SplitFrom(s, cur)) == cur + WithoutSeparators(s)
    decreases |s|
  {
    if |s| == 0 {
      FlattenEmit(cur, []);
    } else if SeparatorAt(s) > 0 {
      SplitFromKeepsText(s[SeparatorAt(s)..], "");
      FlattenEmit(cur, SplitFrom(s[SeparatorAt(s)..], ""));
    } else {
      SeparatorFreeSnoc(cur, s[0]);
      SplitFromKeepsText(s[1..], cur + [s[0]]);
      KeepsTextStep(s, cur);
    }
  }

  lemma SeparatorFreeSnoc(cur: string, c: char)
    requires SeparatorFree(cur) && c != '\n' && c != ' ' && c != '\t'
    ensures SeparatorFree(cur + [c])
  {
    assert forall k :: 0 <= k < |cur| ==> (cur + [c])[k] == cur[k];
  }

  lemma AppendAssoc(a: string, b: string, c: string)
    ensures a + b + c == a + (b + c)
  {
  }

  lemma KeepsTextStep(s: string, cur: string)
    requires |s| > 0 && SeparatorAt(s) == 0 && SeparatorFree(cur)
    requires SeparatorFree(cur + [s[0]])
    requires Flatten(SplitFrom(s[1..], cur + [s[0]])) == cur + [s[0]] + WithoutSeparators(s[1..])
    ensures Flatten(SplitFrom(s, cur)) == cur + WithoutSeparators(s)
  {
    assert SplitFrom(s, cur) == SplitFrom(s[1..], cur + [s[0]]);
    assert WithoutSeparators(s) == [s[0]] + WithoutSeparators(s[1..]);
    AppendAssoc(cur, [s[0]], WithoutSeparators(s[1..]));
  }

  lemma FlattenEmit(cur: string, ts: seq<string>)
    ensures Flatten(Emit(cur) + ts) == cur + Flatten(ts)
  {
    FlattenAppend(Emit(cur), ts);
    FlattenSnoc([], cur);
    assert [] + [cur] == [cur];
  }

  /** Split loses exactly the separators: its tokens, put back together, are the text without them. */
  lemma SplitKeepsText(s: string)
    ensures Flatten(Split(s)) == WithoutSeparators(s)
  {
    SplitFromKeepsText(s, "");
  }

  /**
   * A separator-free token is collected whole. A CR at its end followed by an LF would form
   * the separator "\r\n" and leave the token, so that case is excluded.
   */
  lemma {:induction false} SplitFromToken(t: string, rest: string, cur: string)
    requires SeparatorFree(t) && SeparatorFree(cur)
    requires rest != [] && rest[0] == '\n' ==> t == [] || t[|t| - 1] != '\r'
    ensures SplitFrom(t + rest, cur) == SplitFrom(rest, cur + t)
    decreases |t|
  {
    var s := t + rest;
    if |t| == 0 {
      assert s == rest && cur + t == cur;
    } else {
      assert s[0] == t[0];
      assert |s| >= 2 && s[0] == '\r' ==> s[1] != '\n' by {
        if |t| >= 2 { assert s[1] == t[1]; } else if |s| >= 2 { assert s[1] == rest[0]; }
      }
      assert SeparatorAt(s) == 0;
      assert s[1..] == t[1..] + rest;
      SeparatorFreeSnoc(cur, t[0]);
      SplitFromToken(t[1..], rest, cur + [t[0]]);
      assert cur + [t[0]] + t[1..] == cur + t;
    }
  }

  /** The four separators of the Split call. */
  predicate IsSeparator(sep: string)
  {
    sep == "\r\n" || sep == "\n" || sep == " " || sep == "\t"
  }

  /** A separator ends the token being collected, and splitting starts afresh after it. */
  lemma SplitFromSeparator(sep: string, rest: string, cur: string)
    requires IsSeparator(sep) && SeparatorFree(cur)
    ensures SplitFrom(sep + rest, cur) == Emit(cur) + SplitFrom(rest, "")
  {
    var s := sep + rest;
    assert s[0] == sep[0];
    if sep == "\r\n" {
      assert s[1] == '\n';
    }
    assert SeparatorAt(s) == |sep|;
    assert s[|sep|..] == rest;
  }

  /** Separators before the text, any number of them, produce no token (RemoveEmptyEntries). */
  lemma SplitSkipsSeparator(sep: string, rest: string)
    requires IsSeparator(sep)
    ensures Split(sep + rest) == Split(rest)
  {
    SplitFromSeparator(sep, rest, "");
  }

  /**
   * Split cuts at every separator: a non-empty, separator-free token followed by any of the
   * four separators splits off as the first token. (A token ending in CR before an LF is the
   * case of the "\r\n" separator after the token without its CR.)
   */
  lemma SplitAfterSeparator(t: string, sep: string, rest: string)
    requires t != "" && SeparatorFree(t) && IsSeparator(sep)
    requires sep == "\n" ==> t[|t| - 1] != '\r'
    ensures Split(t + sep + rest) == [t] + Split(rest)
  {
    var u := sep + rest;
    AppendAssoc(t, sep, rest);
    assert u[0] == sep[0];
    SplitFromToken(t, u, "");
    assert "" + t == t;
    SplitFromSeparator(sep, rest, t);
  }

  /**
   * Non-empty, separator-free tokens joined with single spaces split back into exactly
   * those tokens.
   */
  lemma {:induction false} SplitJoinedTokens(ts: seq<string>)
    requires forall k :: 0 <= k < |ts| ==> ts[k] != "" && SeparatorFree(ts[k])
    ensures Split(Join(" ", ts)) == ts
    decreases |ts|
  {
    if |ts| == 1 {
      SplitFromToken(ts[0], "", "");
      assert ts[0] + "" == ts[0] && "" + ts[0] == ts[0];
    } else if |ts| > 1 {
      SplitAfterSeparator(ts[0], " ", Join(" ", ts[1..]));
      SplitJoinedTokens(ts[1..]);
      assert ts == [ts[0]] + ts[1..];
    }
  }

  /** The position of the first c in s, or |s| when there is none (String.IndexOf, with -1 as |s|). */
  function IndexOfChar(s: string, c: char): (i: nat)
    ensures i <= |s|
    ensures forall k :: 0 <= k < i ==> s[k] != c
    ensures i < |s| ==> s[i] == c
  {
    if |s| == 0 || s[0] == c then 0 else 1 + IndexOfChar(s[1..], c)
  }

  /** Ordinal string order: the first differing character decides, a proper prefix comes first. */
  predicate StringLess(a: string, b: string)
  {
    if |a| == 0 then |b| > 0
    else if |b| == 0 then false
    else if a[0] != b[0] then a[0] < b[0]
    else StringLess(a[1..], b[1..])
  }

  lemma {:induction false} StringLessAsymmetric(a: string, b: string)
    ensures !(StringLess(a, b) && StringLess(b, a))
  {
    if |a| > 0 && |b| > 0 && a[0] == b[0] {
      StringLessAsymmetric(a[1..], b[1..]);
    }
  }

  lemma {:induction false} StringLessTransitive(a: string, b: string, c: string)
    requires StringLess(a, b) && StringLess(b, c)
    ensures StringLess(a, c)
  {
    if |a| > 0 && |b| > 0 && |c| > 0 && a[0] == b[0] && b[0] == c[0] {
      StringLessTransitive(a[1..], b[1..], c[1..]);
    }
  }

  lemma {:induction false} StringLessTotal(a: string, b: string)
    ensures a == b || StringLess(a, b) || StringLess(b, a)
  {
    if |a| > 0 && |b| > 0 && a[0] == b[0] {
      StringLessTotal(a[1..], b[1..]);
      if a[1..] == b[1..] {
        assert a == [a[0]] + a[1..] && b == [b[0]] + b[1..];
      }
    }
  }
}
