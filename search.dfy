/** Text normalization and the normalized substring search that
    `searchKeys` and `searchValues` perform. */
module TextSearch {
  import opened JsString
  import opened Sequences

  /** The three independent switches of `normalizeText`. */
  datatype NormalizeTextOptions = NormalizeTextOptions(lowerCase: bool, normalizeLetters: bool, trimSpaces: bool)

  /** The two Unicode-table library calls normalization makes,
      `String.prototype.toLowerCase` and `String.prototype.normalize("NFD")`,
      taken as given functions. */
  datatype UnicodeOps = UnicodeOps(toLowerCase: string -> string, normalizeNfd: string -> string)

  /** The normalized form of `text`: lower-cased, then decomposed with its
      combining marks removed, then trimmed, each step only when its switch
      is on. */
  function Normalized(ops: UnicodeOps, text: string, opts: NormalizeTextOptions): (r: string)
    ensures !opts.lowerCase && !opts.normalizeLetters && !opts.trimSpaces ==> r == text
    ensures opts.normalizeLetters ==> NoCombiningMarks(r)
    ensures opts.trimSpaces ==> r == [] || (!IsWhiteSpace(r[0]) && !IsWhiteSpace(r[|r| - 1]))
  {
    var lowered := if opts.lowerCase then ops.toLowerCase(text) else text;
    TrimStep(StripStep(ops, lowered, opts.normalizeLetters), opts.trimSpaces)
  }

  /** The second step: decompose and remove the combining marks. */
  function StripStep(ops: UnicodeOps, s: string, on: bool): (r: string)
    ensures on ==> NoCombiningMarks(r)
    ensures !on ==> r == s
  {
    if on then RemoveCombiningMarks(ops.normalizeNfd(s)) else s
  }

  /** The third step: trim; it keeps a text free of combining marks. */
  function TrimStep(s: string, on: bool): (r: string)
    ensures NoCombiningMarks(s) ==> NoCombiningMarks(r)
    ensures on ==> r == [] || (!IsWhiteSpace(r[0]) && !IsWhiteSpace(r[|r| - 1]))
    ensures !on ==> r == s
  {
    if on then
      TrimKeepsNoMarks(s);
      Trim(s)
    else s
  }

  /** Trimming cannot bring back a combining mark. */
  lemma TrimKeepsNoMarks(s: string)
    ensures NoCombiningMarks(s) ==> NoCombiningMarks(Trim(s))
  {
    if NoCombiningMarks(s) {
      var r := Trim(s);
      var i, j :| TrimmedAt(s, r, i, j);
      SliceKeepsNoMarks(s, i, j);
    }
  }

  lemma SliceKeepsNoMarks(s: string, i: int, j: int)
    requires 0 <= i <= j <= |s| && NoCombiningMarks(s)
    ensures NoCombiningMarks(s[i..j])
  {
    forall k | 0 <= k < j - i ensures !IsCombiningMark(s[i..j][k]) {
      assert s[i..j][k] == s[i + k];
    }
  }

  /** Whether `item` is found by a search for the already normalized
      `query`. */
  predicate Matches(ops: UnicodeOps, item: string, query: string, opts: NormalizeTextOptions)
  {
    Includes(Normalized(ops, item, opts), query)
  }

  /** The items, in their order, whose normalized form contains `query`:
      each matching item is kept as many times as it occurs, every other
      item is dropped. */
  function Matching(ops: UnicodeOps, items: seq<string>, query: string, opts: NormalizeTextOptions): (r: seq<string>)
    ensures |r| <= |items|
    ensures forall x :: x in r <==> x in items && Matches(ops, x, query, opts)
    ensures forall x :: multiset(r)[x] == if Matches(ops, x, query, opts) then multiset(items)[x] else 0
    decreases |items|
  {
    if items == [] then []
    else
      var init, last := items[..|items| - 1], items[|items| - 1];
      assert items == init + [last];
      var rest := Matching(ops, init, query, opts);
      if Matches(ops, last, query, opts) then rest + [last] else rest
  }

  /** One more item is kept at the end exactly when it matches. */
  lemma MatchingSnoc(ops: UnicodeOps, init: seq<string>, last: string, query: string, opts: NormalizeTextOptions)
    ensures Matching(ops, init + [last], query, opts)
         == Matching(ops, init, query, opts) + if Matches(ops, last, query, opts) then [last] else []
  {
    assert (init + [last])[..|init|] == init;
  }

  /** The search is a filter: searching a concatenation is concatenating
      the searches, so the result keeps the relative order of the items. */
  lemma {:induction false} MatchingAppend(ops: UnicodeOps, xs: seq<string>, ys: seq<string>, query: string, opts: NormalizeTextOptions)
    ensures Matching(ops, xs + ys, query, opts) == Matching(ops, xs, query, opts) + Matching(ops, ys, query, opts)
    decreases |ys|
  {
    if ys == [] {
      assert xs + ys == xs;
    } else {
      var init, last := ys[..|ys| - 1], ys[|ys| - 1];
      assert ys == init + [last] && xs + ys == (xs + init) + [last];
      MatchingAppend(ops, xs, init, query, opts);
      MatchingSnoc(ops, xs + init, last, query, opts);
      MatchingSnoc(ops, init, last, query, opts);
      ConcatAssoc(Matching(ops, xs, query, opts), Matching(ops, init, query, opts),
                  if Matches(ops, last, query, opts) then [last] else []);
    }
  }

  /** When every item matches, the search returns all items in their
      order. */
  lemma {:induction false} MatchingAll(ops: UnicodeOps, items: seq<string>, query: string, opts: NormalizeTextOptions)
    requires forall i :: 0 <= i < |items| ==> Matches(ops, items[i], query, opts)
    ensures Matching(ops, items, query, opts) == items
    decreases |items|
  {
    if items != [] {
      var init, last := items[..|items| - 1], items[|items| - 1];
      assert items == init + [last];
      assert Matches(ops, last, query, opts);
      MatchingSnoc(ops, init, last, query, opts);
      forall i | 0 <= i < |init| ensures Matches(ops, init[i], query, opts) {
        assert init[i] == items[i];
      }
      MatchingAll(ops, init, query, opts);
    }
  }

  /** An empty query matches every item, so the search returns all items
      in their order. */
  lemma MatchingEmptyQuery(ops: UnicodeOps, items: seq<string>, opts: NormalizeTextOptions)
    ensures Matching(ops, items, "", opts) == items
  {
    forall i | 0 <= i < |items| ensures Matches(ops, items[i], "", opts) {
      IncludesFacts(Normalized(ops, items[i], opts), "");
    }
    MatchingAll(ops, items, "", opts);
  }
}
