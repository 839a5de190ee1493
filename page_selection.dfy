/** `parse_pages` of Tools/split_pdf.py: a 1-based page expression such as
    "1-3,5" becomes the ascending list of zero-based page indexes it selects
    in a document of `total` pages. */
module PageSelection {
  import opened Wrappers
  import opened PyStr

  /** `int()` rejected a literal: Python's ValueError, carrying that literal. */
  datatype SelectionError = InvalidLiteral(literal: string)

  // ---------------------------------------------------------------------
  // Specification
  // ---------------------------------------------------------------------

  /** `int(s) - 1`, or the ValueError `int` raises. */
  function ZeroBased(s: string): (r: Result<int, SelectionError>)
    ensures r.Ok? <==> ParseInt(s).Some?
    ensures r.Ok? ==> r.value == ParseInt(s).value - 1
    ensures r.Err? ==> r.error == InvalidLiteral(s)
  {
    match ParseInt(s)
    case None => Err(InvalidLiteral(s))
    case Some(n) => Ok(n - 1)
  }

  /** The integers in `[lo, hi)`: Python's `range(lo, hi)` as a set. */
  function Range(lo: int, hi: int): (r: set<int>)
    ensures forall p :: p in r <==> lo <= p < hi
    decreases hi - lo
  {
    if hi <= lo then {} else Range(lo, hi - 1) + {hi - 1}
  }

  /** The consecutive integers `lo, lo+1, ..., hi-1`. */
  function Interval(lo: int, hi: int): (r: seq<int>)
    ensures |r| == if hi < lo then 0 else hi - lo
    ensures forall i :: 0 <= i < |r| ==> r[i] == lo + i
    decreases hi - lo
  {
    if hi <= lo then [] else Interval(lo, hi - 1) + [hi - 1]
  }

  /** What one stripped token adds to the set `pages`: nothing when empty;
      for "a-b" (split at the first '-') `range(a-1, min(b, total))`;
      otherwise the single value `n-1`, whether or not it is a page. */
  function TokenPages(part: string, total: nat): (r: Result<set<int>, SelectionError>)
  {
    if part == [] then Ok({})
    else
      var dash := IndexOfChar(part, '-');
      if dash < |part| then
        match ZeroBased(part[..dash])
        case Err(e) => Err(e)
        case Ok(start) =>
          match ZeroBased(part[dash + 1..])
          case Err(e) => Err(e)
          case Ok(end) => Ok(Range(start, if end + 1 < total then end + 1 else total))
      else
        match ZeroBased(part)
        case Err(e) => Err(e)
        case Ok(p) => Ok({p})
  }

  /** What each stripped part of the expression selects, in order. */
  function Tokens(parts: seq<string>, total: nat): seq<Result<set<int>, SelectionError>>
  {
    seq(|parts|, k requires 0 <= k < |parts| => TokenPages(Strip(parts[k]), total))
  }

  /** The set `pages` after the tokens' selections `toks`, in order; the
      first token that raises ends the loop with its error. */
  function Accumulate(toks: seq<Result<set<int>, SelectionError>>): Result<set<int>, SelectionError>
  {
    if toks == [] then Ok({})
    else Extend(Accumulate(toks[..|toks| - 1]), toks[|toks| - 1])
  }

  /** One step of the loop: an error so far stays; otherwise the token's
      error, or the union with what the token selects. */
  function Extend(acc: Result<set<int>, SelectionError>, tok: Result<set<int>, SelectionError>): Result<set<int>, SelectionError>
  {
    if acc.Err? then acc
    else if tok.Err? then Err(tok.error)
    else Ok(acc.value + tok.value)
  }

  /** `sorted(p for p in pages if 0 <= p < n)`; AscendingBelowSpec states
      what it holds. */
  function AscendingBelow(pages: set<int>, n: nat): seq<int>
  {
    if n == 0 then []
    else AscendingBelow(pages, n - 1) + (if n - 1 in pages then [n - 1] else [])
  }

  /** The whole of `parse_pages(pages_str, total)`. */
  function Selection(pagesStr: Option<string>, total: nat): Result<seq<int>, SelectionError>
  {
    if pagesStr == None || pagesStr.value == "" then Ok(AllPages(total))
    else
      match Accumulate(Tokens(Split(pagesStr.value, ','), total))
      case Err(e) => Err(e)
      case Ok(pages) => Ok(AscendingBelow(pages, total))
  }

  /** `list(range(total))`. */
  function AllPages(total: nat): (r: seq<int>)
    ensures |r| == total && forall i :: 0 <= i < total ==> r[i] == i
  {
    seq(total, i => i)
  }

  /** Strictly ascending: sorted and free of duplicates. */
  predicate StrictlyAscending(s: seq<int>) {
    forall i, j :: 0 <= i < j < |s| ==> s[i] < s[j]
  }

  predicate WithinDocument(s: seq<int>, total: nat) {
    forall i :: 0 <= i < |s| ==> 0 <= s[i] < total
  }

  // ---------------------------------------------------------------------
  // The implementation: a loop over the comma-separated parts that grows a
  // set, then the ascending filter of the set.
  // ---------------------------------------------------------------------

  method ParsePages(pagesStr: Option<string>, total: nat) returns (r: Result<seq<int>, SelectionError>)
    ensures r == Selection(pagesStr, total)
    ensures r.Ok? ==> StrictlyAscending(r.value) && WithinDocument(r.value, total)
  {
    if pagesStr == None || pagesStr.value == "" {
      return Ok(AllPages(total));
    }
    var pages := AccumulateParts(Split(pagesStr.value, ','), total);
    if pages.Err? {
      return Err(pages.error);
    }
    AscendingBelowSpec(pages.value, total);
    return Ok(AscendingBelow(pages.value, total));
  }

  /** The loop of `parse_pages` over the comma-separated parts. */
  method AccumulateParts(parts: seq<string>, total: nat) returns (r: Result<set<int>, SelectionError>)
    ensures r == Accumulate(Tokens(parts, total))
  {
    ghost var toks := Tokens(parts, total);
    var pages: set<int> := {};
    var i := 0;
    assert toks[..0] == [];
    while i < |parts|
      invariant 0 <= i <= |parts|
      invariant Accumulate(toks[..i]) == Ok(pages)
    {
      var next := AddPart(pages, Strip(parts[i]), total);
      AccumulateStep(toks, i);
      if next.Err? {
        AccumulateErrSticky(toks, i + 1);
        return next;
      }
      pages := next.value;
      i := i + 1;
    }
    assert toks[..|parts|] == toks;
    return Ok(pages);
  }

  /** One iteration of the loop: add what the stripped token `part` selects
      to `pages`, or stop with the ValueError `int` raised. */
  method AddPart(pages: set<int>, part: string, total: nat) returns (r: Result<set<int>, SelectionError>)
    ensures r == Extend(Ok(pages), TokenPages(part, total))
  {
    if part == [] {
      assert pages + {} == pages;
      return Ok(pages);
    }
    var dash := IndexOfChar(part, '-');
    if dash < |part| {
      var start := ZeroBased(part[..dash]);
      if start.Err? { return Err(start.error); }
      var end := ZeroBased(part[dash + 1..]);
      if end.Err? { return Err(end.error); }
      return Ok(pages + Range(start.value, if end.value + 1 < total then end.value + 1 else total));
    } else {
      var p := ZeroBased(part);
      if p.Err? { return Err(p.error); }
      return Ok(pages + {p.value});
    }
  }

  /** One more token: the loop's step, stated on prefixes. */
  lemma AccumulateStep(toks: seq<Result<set<int>, SelectionError>>, i: nat)
    requires i < |toks|
    ensures Accumulate(toks[..i + 1]) == Extend(Accumulate(toks[..i]), toks[i])
  {
    assert toks[..i + 1][..i] == toks[..i];
  }

  /** Once a token has raised, later tokens change nothing. */
  lemma {:induction false} AccumulateErrSticky(toks: seq<Result<set<int>, SelectionError>>, i: nat)
    requires i <= |toks|
    requires Accumulate(toks[..i]).Err?
    ensures Accumulate(toks) == Accumulate(toks[..i])
    decreases |toks| - i
  {
    if i < |toks| {
      AccumulateStep(toks, i);
      AccumulateErrSticky(toks, i + 1);
    } else {
      assert toks[..i] == toks;
    }
  }

  // ---------------------------------------------------------------------
  // Properties
  // ---------------------------------------------------------------------

  /** A missing or empty expression selects every page, in order. */
  lemma EmptySelectsAll(pagesStr: Option<string>, total: nat)
    requires pagesStr == None || pagesStr == Some("")
    ensures Selection(pagesStr, total) == Ok(seq(total, i => i))
  {
  }

  /** Every selection is strictly ascending and lies within the document. */
  lemma SelectionIsCanonical(pagesStr: Option<string>, total: nat)
    requires Selection(pagesStr, total).Ok?
    ensures StrictlyAscending(Selection(pagesStr, total).value)
    ensures WithinDocument(Selection(pagesStr, total).value, total)
  {
    if pagesStr != None && pagesStr.value != "" {
      AscendingBelowSpec(Accumulate(Tokens(Split(pagesStr.value, ','), total)).value, total);
    }
  }

  /** The loop fails exactly when one of the tokens raises. */
  lemma {:induction false} AccumulateOkIff(toks: seq<Result<set<int>, SelectionError>>)
    ensures Accumulate(toks).Ok? <==> forall k :: 0 <= k < |toks| ==> toks[k].Ok?
  {
    if toks != [] {
      var last := |toks| - 1;
      var init := toks[..last];
      AccumulateOkIff(init);
      assert Accumulate(toks) == Extend(Accumulate(init), toks[last]);
      if Accumulate(toks).Ok? {
        forall k | 0 <= k < |toks| ensures toks[k].Ok? {
          if k < last { assert init[k] == toks[k]; }
        }
      } else if Accumulate(init).Err? {
        var k :| 0 <= k < |init| && !init[k].Ok?;
        assert init[k] == toks[k];
      }
    }
  }

  /** A page is in the set exactly when some token contributes it: the set
      is the union of what the tokens select, duplicates merged. */
  lemma AccumulateIsUnion(toks: seq<Result<set<int>, SelectionError>>, p: int)
    requires Accumulate(toks).Ok?
    ensures p in Accumulate(toks).value <==>
      exists k :: 0 <= k < |toks| && toks[k].Ok? && p in toks[k].value
  {
    if p in Accumulate(toks).value {
      AccumulateWitness(toks, p);
    } else {
      forall k | 0 <= k < |toks| && toks[k].Ok? ensures p !in toks[k].value {
        if p in toks[k].value {
          AccumulateContains(toks, k, p);
        }
      }
    }
  }

  /** What a token selects is in the set. */
  lemma {:induction false} AccumulateContains(toks: seq<Result<set<int>, SelectionError>>, k: nat, p: int)
    requires Accumulate(toks).Ok?
    requires k < |toks| && toks[k].Ok? && p in toks[k].value
    ensures p in Accumulate(toks).value
  {
    var last := |toks| - 1;
    var init := toks[..last];
    assert Accumulate(toks) == Extend(Accumulate(init), toks[last]);
    if k < last {
      assert init[k] == toks[k];
      AccumulateContains(init, k, p);
    }
  }

  /** Whatever is in the set, some token selected. */
  lemma {:induction false} AccumulateWitness(toks: seq<Result<set<int>, SelectionError>>, p: int)
    requires Accumulate(toks).Ok? && p in Accumulate(toks).value
    ensures exists k :: 0 <= k < |toks| && toks[k].Ok? && p in toks[k].value
  {
    var last := |toks| - 1;
    var init := toks[..last];
    assert Accumulate(toks) == Extend(Accumulate(init), toks[last]);
    if p !in toks[last].value {
      AccumulateWitness(init, p);
      var k :| 0 <= k < |init| && init[k].Ok? && p in init[k].value;
      assert init[k] == toks[k];
    }
  }

  /** An index is selected exactly when it is a page of the document and
      some token of the expression names it. */
  lemma SelectionMembership(s: string, total: nat, p: int)
    requires s != "" && Selection(Some(s), total).Ok?
    ensures p in Selection(Some(s), total).value <==>
      0 <= p < total && exists k :: (0 <= k < |Split(s, ',')|
        && TokenPages(Strip(Split(s, ',')[k]), total).Ok?
        && p in TokenPages(Strip(Split(s, ',')[k]), total).value)
  {
    var parts := Split(s, ',');
    var toks := Tokens(parts, total);
    AccumulateIsUnion(toks, p);
    var pages := Accumulate(toks).value;
    assert Selection(Some(s), total) == Ok(AscendingBelow(pages, total));
    AscendingBelowSpec(pages, total);
    if p in pages {
      var k :| 0 <= k < |toks| && toks[k].Ok? && p in toks[k].value;
      assert toks[k] == TokenPages(Strip(parts[k]), total);
      assert exists k :: (0 <= k < |Split(s, ',')|
        && TokenPages(Strip(Split(s, ',')[k]), total).Ok?
        && p in TokenPages(Strip(Split(s, ',')[k]), total).value);
    } else {
      forall k | 0 <= k < |parts| && TokenPages(Strip(parts[k]), total).Ok?
        ensures p !in TokenPages(Strip(parts[k]), total).value
      {
        assert toks[k] == TokenPages(Strip(parts[k]), total);
      }
    }
  }

  /** The expression raises exactly when one of its tokens does. */
  lemma SelectionErrIff(s: string, total: nat)
    requires s != ""
    ensures Selection(Some(s), total).Err? <==>
      exists k :: 0 <= k < |Split(s, ',')| && TokenPages(Strip(Split(s, ',')[k]), total).Err?
  {
    var parts := Split(s, ',');
    var toks := Tokens(parts, total);
    AccumulateOkIff(toks);
    assert Selection(Some(s), total).Err? <==> Accumulate(toks).Err?;
    if Accumulate(toks).Err? {
      var k :| 0 <= k < |toks| && !toks[k].Ok?;
      assert toks[k] == TokenPages(Strip(parts[k]), total);
      assert exists k :: 0 <= k < |Split(s, ',')| && TokenPages(Strip(Split(s, ',')[k]), total).Err?;
    } else {
      forall k | 0 <= k < |parts| ensures TokenPages(Strip(parts[k]), total).Ok? {
        assert toks[k] == TokenPages(Strip(parts[k]), total);
      }
    }
  }

  /** The filter keeps exactly the members of `pages` in `[0, n)`, in
      strictly ascending order. */
  lemma {:induction false} AscendingBelowSpec(pages: set<int>, n: nat)
    ensures StrictlyAscending(AscendingBelow(pages, n))
    ensures WithinDocument(AscendingBelow(pages, n), n)
    ensures forall p :: p in AscendingBelow(pages, n) <==> 0 <= p < n && p in pages
  {
    if n > 0 {
      AscendingBelowSpec(pages, n - 1);
      var r := AscendingBelow(pages, n - 1);
      assert AscendingBelow(pages, n) == r + (if n - 1 in pages then [n - 1] else []);
    }
  }

  /** The ascending members of a range, clipped to `[0, n)`. */
  lemma {:induction false} AscendingBelowRange(lo: int, hi: int, n: nat)
    ensures AscendingBelow(Range(lo, hi), n) ==
      Interval(if lo < 0 then 0 else lo, if hi < n then hi else n)
  {
    var start := if lo < 0 then 0 else lo;
    if n > 0 {
      AscendingBelowRange(lo, hi, n - 1);
      var r := Range(lo, hi);
      assert AscendingBelow(r, n) == AscendingBelow(r, n - 1) + (if n - 1 in r then [n - 1] else []);
      if hi <= n - 1 {
        assert n - 1 !in r;
      } else if start <= n - 1 {
        assert n - 1 in r;
        assert Interval(start, n) == Interval(start, n - 1) + [n - 1];
      } else {
        assert n - 1 !in r;
      }
    }
  }

  /** An expression without commas is one token. */
  lemma OneToken(s: string, total: nat)
    requires s != ""
    requires forall k :: 0 <= k < |s| ==> s[k] != ','
    ensures TokenPages(Strip(s), total).Err? ==>
      Selection(Some(s), total) == Err(TokenPages(Strip(s), total).error)
    ensures TokenPages(Strip(s), total).Ok? ==>
      Selection(Some(s), total) == Ok(AscendingBelow(TokenPages(Strip(s), total).value, total))
  {
    assert IndexOfChar(s, ',') == |s|;
    assert Split(s, ',') == [s];
    var tok := TokenPages(Strip(s), total);
    assert Tokens([s], total) == [tok];
    assert [tok][..0] == [];
    assert Accumulate([tok]) == Extend(Ok({}), tok);
    if tok.Ok? {
      var empty: set<int> := {};
      assert empty + tok.value == tok.value;
    }
  }

  /** A range token "a-b" selects the 1-based pages a..b that exist: a
      reversed range, and the part of a range before page 1, select nothing
      and raise nothing. */
  lemma RangeToken(a: nat, b: nat, total: nat)
    ensures Selection(Some(NatToString(a) + "-" + NatToString(b)), total) ==
      Ok(Interval(if a == 0 then 0 else a - 1, if b < total then b else total))
  {
    var sa, sb := NatToString(a), NatToString(b);
    var s := sa + "-" + sb;
    forall k | 0 <= k < |s| ensures s[k] != ',' {
      if k < |sa| { assert s[k] == sa[k]; } else if k > |sa| { assert s[k] == sb[k - |sa| - 1]; }
    }
    assert s[0] == sa[0] && s[|s| - 1] == sb[|sb| - 1];
    StripTrimmed(s);
    RangeTokenPages(a, b, total);
    OneToken(s, total);
    AscendingBelowRange(a - 1, if b < total then b else total, total);
  }

  lemma RangeTokenPages(a: nat, b: nat, total: nat)
    ensures TokenPages(NatToString(a) + "-" + NatToString(b), total) ==
      Ok(Range(a - 1, if b < total then b else total))
  {
    var sa, sb := NatToString(a), NatToString(b);
    var s := sa + "-" + sb;
    assert IndexOfChar(s, '-') == |sa| by {
      forall k | 0 <= k < |sa| ensures s[k] != '-' { assert s[k] == sa[k]; }
      IndexOfFirst(s, '-', |sa|);
    }
    assert s[..|sa|] == sa;
    assert s[|sa| + 1..] == sb;
    ParseIntOfNatToString(a);
    ParseIntOfNatToString(b);
  }

  /** A single page number outside the document is dropped silently. */
  lemma SingleToken(n: nat, total: nat)
    ensures Selection(Some(NatToString(n)), total) == Ok(if 1 <= n <= total then [n - 1] else [])
  {
    var s := NatToString(n);
    forall k | 0 <= k < |s| ensures s[k] != ',' && s[k] != '-' { assert IsDigit(s[k]); }
    StripTrimmed(s);
    assert IndexOfChar(s, '-') == |s|;
    ParseIntOfNatToString(n);
    assert TokenPages(s, total) == Ok({n - 1});
    OneToken(s, total);
    assert {n - 1} == Range(n - 1, n);
    AscendingBelowRange(n - 1, n, total);
    if 1 <= n <= total {
      assert Interval(n - 1, n) == [n - 1];
    } else if n == 0 {
      assert Interval(0, 0) == [];
    } else {
      assert Interval(n - 1, total) == [];
    }
  }

  /** A non-empty expression made only of whitespace and commas is not
      "absent": it selects nothing rather than every page. */
  lemma BlankSelectsNothing(s: string, total: nat)
    requires s != ""
    requires forall k :: 0 <= k < |s| ==> IsSpace(s[k]) || s[k] == ','
    ensures Selection(Some(s), total) == Ok([])
  {
    var parts := Split(s, ',');
    forall k | 0 <= k < |parts| ensures Strip(parts[k]) == [] {
      JoinPartIsInfix(parts, ',', k);
      var off: nat :| InfixAt(s, parts[k], off);
      forall c | 0 <= c < |parts[k]| ensures IsSpace(parts[k][c]) {
        assert parts[k][c] == s[off + c];
      }
      StripAllSpace(parts[k]);
    }
    var toks := Tokens(parts, total);
    forall k | 0 <= k < |toks| ensures toks[k] == Ok({}) {
      assert toks[k] == TokenPages(Strip(parts[k]), total);
    }
    BlankAccumulate(toks);
    AscendingBelowRange(0, 0, total);
  }

  lemma {:induction false} BlankAccumulate(toks: seq<Result<set<int>, SelectionError>>)
    requires forall k :: 0 <= k < |toks| ==> toks[k] == Ok({})
    ensures Accumulate(toks) == Ok({})
  {
    if toks != [] {
      var init := toks[..|toks| - 1];
      assert forall k :: 0 <= k < |init| ==> init[k] == toks[k];
      BlankAccumulate(init);
      var empty: set<int> := {};
      assert empty + empty == empty;
    }
  }

  predicate InfixAt(s: string, t: string, off: nat) {
    off + |t| <= |s| && s[off..off + |t|] == t
  }

  /** Every part of a split string sits somewhere inside it. */
  lemma {:induction false} JoinPartIsInfix(parts: seq<string>, sep: char, k: nat)
    requires k < |parts|
    ensures exists off: nat :: InfixAt(Join(parts, sep), parts[k], off)
  {
    var j := Join(parts, sep);
    if |parts| == 1 {
      assert j[0..|parts[0]|] == parts[0];
      assert InfixAt(j, parts[k], 0);
    } else if k == 0 {
      assert j == parts[0] + [sep] + Join(parts[1..], sep);
      assert j[0..|parts[0]|] == parts[0];
      assert InfixAt(j, parts[k], 0);
    } else {
      var rest := Join(parts[1..], sep);
      JoinPartIsInfix(parts[1..], sep, k - 1);
      var off: nat :| InfixAt(rest, parts[k], off);
      var off' := |parts[0]| + 1 + off;
      assert j == parts[0] + [sep] + rest;
      assert j[off'..off' + |parts[k]|] == rest[off..off + |parts[k]|];
      assert InfixAt(j, parts[k], off');
    }
  }

  /** A token without a single digit, such as "abc", raises. */
  lemma NonNumericTokenFails(part: string, total: nat)
    requires part != []
    requires forall k :: 0 <= k < |part| ==> !IsDigit(part[k])
    ensures TokenPages(part, total).Err?
  {
    var dash := IndexOfChar(part, '-');
    if dash < |part| {
      ParseIntNeedsDigit(part[..dash]);
    } else {
      ParseIntNeedsDigit(part);
    }
  }

  /** A range with a missing side, "a-" or "-b", raises. */
  lemma MissingSideFails(n: nat, total: nat)
    ensures TokenPages(NatToString(n) + "-", total).Err?
    ensures TokenPages("-" + NatToString(n), total).Err?
  {
    var s := NatToString(n);
    var t := s + "-";
    assert IndexOfChar(t, '-') == |s| by {
      forall k | 0 <= k < |s| ensures t[k] != '-' { assert t[k] == s[k]; }
      IndexOfFirst(t, '-', |s|);
    }
    assert t[|s| + 1..] == "";
    ParseIntOfNatToString(n);
    assert t[..|s|] == s;
    var u := "-" + s;
    assert IndexOfChar(u, '-') == 0;
    assert u[..0] == "";
  }

  /** The unit tests' selection "2-3" of a five-page document: the zero-based
      pages 1 and 2. */
  lemma TestPageRange()
    ensures Selection(Some("2-3"), 5) == Ok([1, 2])
  {
    RangeToken(2, 3, 5);
    assert NatToString(2) == "2" && NatToString(3) == "3";
    assert "2" + "-" + "3" == "2-3";
    assert Interval(1, 3) == [1, 2];
  }
}
