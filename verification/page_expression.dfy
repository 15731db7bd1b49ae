/** The page-range expression language: a comma-separated list of segments `a-b` or `a`, where
    every letter `n` stands for the document's page count. `ExtractPageExpression` keeps the
    segments as text and answers "is page p selected?" one segment at a time. */
module PageExpression {
  import opened Wrappers
  import opened JavaLang
  import opened Platform

  const INVALID_EXPRESSION := "INVALID_EXPRESSION"
  const INVALID_EXPRESSION_LABEL := "Invalid expression to pilot the extraction. Format must be <number1>-<number2> where number1<=number2. n means 'end of document' : example, 10-n"

  /** The vocabulary of BPMN errors a page expression can raise. */
  function BpmnErrorExtractExpression(): (errors: map<string, string>)
    ensures errors.Keys == {INVALID_EXPRESSION}
  {
    map[INVALID_EXPRESSION := INVALID_EXPRESSION_LABEL]
  }

  /** A well-formed segment: pages `first` to `last`, both as Java `int`s. */
  datatype Segment = Segment(first: int, last: int)

  /** One token of the expression, read as a segment: cut at the first `-`, parse both halves
      with `Integer.parseInt` (a token without `-` is a single page), and reject a bound of -1
      or a first page after the last. `None` is the INVALID_EXPRESSION case. */
  function ParseSegment(token: string): (r: Option<Segment>)
    ensures r.Some? ==> 0 <= r.value.first <= r.value.last <= INT_MAX
    ensures '-' !in token ==> r.Some? ==> r.value.first == r.value.last
  {
    var detail := SplitFirst(token, '-');
    var first := ParseInt(detail[0]);
    var last := if |detail| >= 2 then ParseInt(detail[1]) else first;
    if first.None? || last.None? then None
    else if first.value == -1 || last.value == -1 || first.value > last.value then None
    else Some(Segment(first.value, last.value))
  }

  /** The tokens an expression stands for once `n` is replaced by the page count:
      `expression.replace("n", String.valueOf(count)).split(",")`. */
  function Tokens(expression: string, numberOfPages: nat): (tokens: seq<string>)
    ensures forall i :: 0 <= i < |tokens| ==> 'n' !in tokens[i] && ',' !in tokens[i]
  {
    var replaced := Replace(expression, 'n', NatToString(numberOfPages));
    SplitChars(replaced, ',');
    Split(replaced, ',')
  }

  // ---------------------------------------------------------------- membership

  predicate Contains(segment: Segment, page: int) { segment.first <= page <= segment.last }

  /** What the segment scan answers: the segments are read in order; a malformed one raises
      INVALID_EXPRESSION, one that contains the page answers true, and running out answers
      false. */
  function InRange(tokens: seq<string>, page: int): (r: Result<bool, Thrown>)
    ensures r.Failure? ==> r.error == ConnectorException(INVALID_EXPRESSION)
  {
    if tokens == [] then Success(false)
    else
      match ParseSegment(tokens[0])
      case None => Failure(ConnectorException(INVALID_EXPRESSION))
      case Some(segment) => if Contains(segment, page) then Success(true) else InRange(tokens[1..], page)
  }

  /** The segment scan with the segment test the counting loop of `isPageInRange` really
      performs: a 32-bit counter running up to `Integer.MAX_VALUE` wraps around and meets
      every `int`, so such a segment matches any page. */
  function InRangeAsWritten(tokens: seq<string>, page: int): (r: Result<bool, Thrown>)
    ensures r.Failure? ==> r.error == ConnectorException(INVALID_EXPRESSION)
  {
    if tokens == [] then Success(false)
    else
      match ParseSegment(tokens[0])
      case None => Failure(ConnectorException(INVALID_EXPRESSION))
      case Some(segment) =>
        if Contains(segment, page) || segment.last == INT_MAX then Success(true)
        else InRangeAsWritten(tokens[1..], page)
  }

  /** Segments `tokens[..k]` are well formed and none of them contains the page. */
  predicate PassedBy(tokens: seq<string>, k: nat, page: int)
    requires k <= |tokens|
  {
    forall j :: 0 <= j < k ==> ParseSegment(tokens[j]).Some? && !Contains(ParseSegment(tokens[j]).value, page)
  }

  /** Segment `k` is the first that decides the scan in favour of the page: every segment
      before it is well formed and misses the page, and segment `k` contains it. */
  predicate Decides(tokens: seq<string>, k: nat, page: int)
  {
    k < |tokens| && PassedBy(tokens, k, page)
    && ParseSegment(tokens[k]).Some? && Contains(ParseSegment(tokens[k]).value, page)
  }

  lemma PassedByShift(tokens: seq<string>, k: nat, page: int)
    requires 0 < k <= |tokens|
    ensures PassedBy(tokens, k, page) <==>
      ParseSegment(tokens[0]).Some? && !Contains(ParseSegment(tokens[0]).value, page)
      && PassedBy(tokens[1..], k - 1, page)
  {
    if PassedBy(tokens, k, page) {
      forall j | 0 <= j < k - 1
        ensures ParseSegment(tokens[1..][j]).Some? && !Contains(ParseSegment(tokens[1..][j]).value, page)
      {
        assert tokens[1..][j] == tokens[j + 1];
      }
    }
    if ParseSegment(tokens[0]).Some? && !Contains(ParseSegment(tokens[0]).value, page)
      && PassedBy(tokens[1..], k - 1, page)
    {
      forall j | 0 <= j < k
        ensures ParseSegment(tokens[j]).Some? && !Contains(ParseSegment(tokens[j]).value, page)
      {
        if j > 0 { assert tokens[j] == tokens[1..][j - 1]; }
      }
    }
  }

  /** The scan answers true exactly when some segment containing the page is reached before
      any malformed one. */
  lemma {:induction false} InRangeTrueIff(tokens: seq<string>, page: int)
    ensures InRange(tokens, page) == Success(true) <==> exists k: nat :: Decides(tokens, k, page)
  {
    if tokens != [] {
      InRangeTrueIff(tokens[1..], page);
      var s := ParseSegment(tokens[0]);
      if s.Some? && !Contains(s.value, page) {
        // the answer is the tail's, and decisive positions shift by one
        if InRange(tokens, page) == Success(true) {
          var k: nat :| Decides(tokens[1..], k, page);
          PassedByShift(tokens, k + 1, page);
          assert tokens[1..][k] == tokens[k + 1];
          assert Decides(tokens, k + 1, page);
        }
        if exists k: nat :: Decides(tokens, k, page) {
          var k: nat :| Decides(tokens, k, page);
          PassedByShift(tokens, k, page);
          assert tokens[1..][k - 1] == tokens[k];
          assert Decides(tokens[1..], k - 1, page);
        }
      } else if s.Some? {
        assert Decides(tokens, 0, page);
      } else {
        assert forall k: nat :: 0 < k < |tokens| ==> !PassedBy(tokens, k, page);
      }
    }
  }

  /** The scan answers false exactly when every segment is well formed and none contains the
      page. */
  lemma {:induction false} InRangeFalseIff(tokens: seq<string>, page: int)
    ensures InRange(tokens, page) == Success(false) <==> PassedBy(tokens, |tokens|, page)
  {
    if tokens != [] {
      InRangeFalseIff(tokens[1..], page);
      PassedByShift(tokens, |tokens|, page);
    }
  }

  /** Validation is lazy: once a segment containing the page is reached, whatever follows it,
      malformed tokens included, does not change the answer. */
  lemma {:induction false} InRangeIgnoresRest(tokens: seq<string>, k: nat, rest: seq<string>, page: int)
    requires k < |tokens| && PassedBy(tokens, k, page)
    requires ParseSegment(tokens[k]).Some? && Contains(ParseSegment(tokens[k]).value, page)
    ensures InRange(tokens[..k + 1] + rest, page) == Success(true)
  {
    var t := tokens[..k + 1] + rest;
    if k > 0 {
      assert t[1..] == tokens[1..][..k] + rest;
      assert PassedBy(tokens[1..], k - 1, page) by {
        forall j | 0 <= j < k - 1
          ensures ParseSegment(tokens[1..][j]).Some? && !Contains(ParseSegment(tokens[1..][j]).value, page)
        {
          assert tokens[1..][j] == tokens[j + 1];
        }
      }
      assert tokens[1..][k - 1] == tokens[k];
      InRangeIgnoresRest(tokens[1..], k - 1, rest, page);
      assert t[0] == tokens[0];
    } else {
      assert t[0] == tokens[0];
    }
  }

  // ---------------------------------------------------------------- facts about the language

  /** A token without `-` is the single page it names; `a-b` with `0 <= a <= b` is pages
      `a` to `b`, and a lower bound of 0 is accepted. */
  lemma SegmentOfNumbers(a: nat, b: nat)
    requires a <= b <= INT_MAX
    ensures ParseSegment(NatToString(a)) == Some(Segment(a, a))
    ensures ParseSegment(NatToString(a) + "-" + NatToString(b)) == Some(Segment(a, b))
  {
    ParseIntOfNatToString(a);
    ParseIntOfNatToString(b);
    var sa, sb := NatToString(a), NatToString(b);
    assert '-' !in sa by { assert forall i :: 0 <= i < |sa| ==> IsDigit(sa[i]); }
    var t := sa + "-" + sb;
    assert t == sa + ['-'] + sb;
    var detail := SplitFirst(t, '-');
    assert '-' in t by { assert t[|sa|] == '-'; }
    assert detail[0] + ['-'] + detail[1] == sa + ['-'] + sb;
    SplitFirstUnique(detail[0], detail[1], sa, sb);
  }

  /** Cutting at the first `-` is unambiguous when the head has no `-`. */
  lemma SplitFirstUnique(h1: string, t1: string, h2: string, t2: string)
    requires '-' !in h1 && '-' !in h2
    requires h1 + ['-'] + t1 == h2 + ['-'] + t2
    ensures h1 == h2 && t1 == t2
  {
    var s := h1 + ['-'] + t1;
    assert forall j :: 0 <= j < |h1| ==> s[j] == h1[j];
    assert forall j :: 0 <= j < |h2| ==> s[j] == h2[j];
    assert s[|h1|] == '-' && s[|h2|] == '-';
    assert |h1| == |h2|;
    assert h1 == s[..|h1|] == h2;
    assert t1 == s[|h1| + 1..] == t2;
  }

  /** The empty token (a leading or middle empty piece) and a bound with a surrounding space
      are malformed. */
  lemma MalformedTokens()
    ensures ParseSegment("") == None
    ensures ParseSegment(" 1") == None
    ensures ParseSegment("1 ") == None
  {
    assert SplitFirst("", '-') == [""];
    assert SplitFirst(" 1", '-') == [" 1"];
    assert !AllDigits(" 1") by { assert !IsDigit(" 1"[0]); }
    assert SplitFirst("1 ", '-') == ["1 "];
    assert !AllDigits("1 ") by { assert !IsDigit("1 "[1]); }
  }

  lemma {:induction false} SplitAllAppendSep(s: string, sep: char)
    ensures SplitAll(s + [sep], sep) == SplitAll(s, sep) + [""]
  {
    if s == [] {
      assert [sep][1..] == [];
    } else {
      assert (s + [sep])[1..] == s[1..] + [sep];
      SplitAllAppendSep(s[1..], sep);
    }
  }

  /** A trailing comma changes nothing: Java drops trailing empty tokens. */
  lemma TrailingCommaIgnored(expression: string, numberOfPages: nat)
    requires expression != ""
    ensures Tokens(expression + ",", numberOfPages) == Tokens(expression, numberOfPages)
  {
    var r := NatToString(numberOfPages);
    var e := Replace(expression, 'n', r);
    ReplaceAppend(expression, ",", 'n', r);
    assert Replace(",", 'n', r) == ",";
    assert e != [] by { ReplaceNonEmpty(expression, 'n', r); }
    SplitAllAppendSep(e, ',');
    assert ',' in e + ",";
    if ',' !in e {
      SplitAllNoSep(e, ',');
      assert DropTrailingEmpty([e, ""]) == DropTrailingEmpty([e]);
    } else {
      var parts := SplitAll(e, ',');
      assert (parts + [""])[..|parts|] == parts;
    }
  }

  lemma {:induction false} ReplaceAppend(a: string, b: string, c: char, r: string)
    ensures Replace(a + b, c, r) == Replace(a, c, r) + Replace(b, c, r)
  {
    if a != [] {
      var head := if a[0] == c then r else [a[0]];
      assert (a + b)[0] == a[0] && (a + b)[1..] == a[1..] + b;
      ReplaceStep(a + b, c, r);
      ReplaceStep(a, c, r);
      ReplaceAppend(a[1..], b, c, r);
      var x, y := Replace(a[1..], c, r), Replace(b, c, r);
      assert head + (x + y) == (head + x) + y;
    } else {
      assert a + b == b;
    }
  }

  lemma ReplaceStep(s: string, c: char, r: string)
    requires s != []
    ensures Replace(s, c, r) == (if s[0] == c then r else [s[0]]) + Replace(s[1..], c, r)
  {
  }

  lemma ReplaceNonEmpty(s: string, c: char, r: string)
    requires s != [] && r != []
    ensures Replace(s, c, r) != []
  {
  }

  /** The default expression is the one token `1-N`. */
  lemma DefaultTokens(numberOfPages: nat)
    ensures Tokens("1-n", numberOfPages) == ["1-" + NatToString(numberOfPages)]
  {
    var r := NatToString(numberOfPages);
    var head: string := "1-";
    assert "1-n" == head + "n";
    ReplaceAppend(head, "n", 'n', r);
    assert Replace(head, 'n', r) == head;
    assert Replace("n", 'n', r) == r;
    var e := head + r;
    assert ',' !in e by {
      assert forall i :: 0 <= i < |r| ==> IsDigit(r[i]);
      assert forall i :: 0 <= i < |e| ==> e[i] == (if i < 2 then head[i] else r[i - 2]);
    }
  }

  /** The default expression `1-n` selects pages 1 to N of a document with N >= 1 pages, each
      once and in order; for an empty document it reads `1-0` and is malformed. */
  lemma DefaultExpressionSelectsEveryPage(numberOfPages: nat)
    requires numberOfPages <= INT_MAX
    ensures numberOfPages >= 1 ==> Tokens("1-n", numberOfPages) == ["1-" + NatToString(numberOfPages)]
    ensures numberOfPages >= 1 ==>
      ParseSegment(Tokens("1-n", numberOfPages)[0]) == Some(Segment(1, numberOfPages))
    ensures numberOfPages == 0 ==> Tokens("1-n", numberOfPages) == ["1-0"]
    ensures numberOfPages == 0 ==> ParseSegment("1-0") == None
  {
    var r := NatToString(numberOfPages);
    DefaultTokens(numberOfPages);
    if numberOfPages >= 1 {
      DefaultSegment(numberOfPages);
    } else {
      assert r == "0";
      assert "1-" + r == "1-0";
      OneToZeroMalformed();
    }
  }

  /** For N >= 1 the default token `1-N` is pages 1 to N. */
  lemma DefaultSegment(numberOfPages: nat)
    requires 1 <= numberOfPages <= INT_MAX
    ensures ParseSegment("1-" + NatToString(numberOfPages)) == Some(Segment(1, numberOfPages))
  {
    SegmentOfNumbers(1, numberOfPages);
    var one := NatToString(1);
    assert one == "1";
    assert one + "-" == "1-";
  }

  /** `1-0` has its first page after its last, so it is malformed. */
  lemma OneToZeroMalformed()
    ensures ParseSegment("1-0") == None
  {
    var detail := SplitFirst("1-0", '-');
    assert "1-0" == "1" + ['-'] + "0";
    SplitFirstUnique(detail[0], detail[1], "1", "0");
    assert ParseInt("1") == Some(1) by { ParseIntOfNatToString(1); assert NatToString(1) == "1"; }
    assert ParseInt("0") == Some(0) by { ParseIntOfNatToString(0); assert NatToString(0) == "0"; }
  }

  /** For the default expression the scan answers exactly "1 <= p <= N". */
  lemma DefaultExpressionMembership(numberOfPages: nat, page: int)
    requires 1 <= numberOfPages <= INT_MAX
    ensures InRange(Tokens("1-n", numberOfPages), page) == Success(1 <= page <= numberOfPages)
  {
    DefaultExpressionSelectsEveryPage(numberOfPages);
    var tokens := Tokens("1-n", numberOfPages);
    InRangeOfOne(tokens, page);
  }

  /** A single well-formed segment answers whether it contains the page. */
  lemma InRangeOfOne(tokens: seq<string>, page: int)
    requires |tokens| == 1 && ParseSegment(tokens[0]).Some?
    ensures InRange(tokens, page) == Success(Contains(ParseSegment(tokens[0]).value, page))
  {
    assert tokens[1..] == [];
  }

  // ---------------------------------------------------------------- as written versus intended

  /** The two scans agree unless a segment reached runs up to `Integer.MAX_VALUE`. */
  lemma {:induction false} AsWrittenAgreesBelowMax(tokens: seq<string>, page: int)
    requires forall i :: 0 <= i < |tokens| && ParseSegment(tokens[i]).Some? ==>
      ParseSegment(tokens[i]).value.last < INT_MAX
    ensures InRangeAsWritten(tokens, page) == InRange(tokens, page)
  {
    if tokens != [] {
      AsWrittenAgreesBelowMax(tokens[1..], page);
    }
  }

  /** Page 1 is not in `5-2147483647`, yet the counting loop reports it. */
  lemma WrapAroundSelectsPageOutsideSegment()
    ensures ParseSegment("5-2147483647") == Some(Segment(5, INT_MAX))
    ensures InRangeAsWritten(["5-2147483647"], 1) == Success(true)
    ensures InRange(["5-2147483647"], 1) == Success(false)
  {
    var t := "5-2147483647";
    WrapAroundToken();
    SegmentOfNumbers(5, INT_MAX);
    InRangeOfOne([t], 1);
    AsWrittenOfOne([t], 1);
  }

  lemma WrapAroundToken()
    ensures "5-2147483647" == NatToString(5) + "-" + NatToString(INT_MAX)
  {
    NatToStringMax();
    assert NatToString(5) == "5";
  }

  /** A single well-formed segment, as the counting loop tests it. */
  lemma AsWrittenOfOne(tokens: seq<string>, page: int)
    requires |tokens| == 1 && ParseSegment(tokens[0]).Some?
    ensures InRangeAsWritten(tokens, page)
            == Success(Contains(ParseSegment(tokens[0]).value, page) || ParseSegment(tokens[0]).value.last == INT_MAX)
  {
    assert tokens[1..] == [];
  }

  lemma NatToStringMax()
    ensures NatToString(INT_MAX) == "2147483647"
  {
    assert NatToString(2) == "2";
    assert NatToString(21) == NatToString(2) + "1";
    assert NatToString(214) == NatToString(21) + "4";
    assert NatToString(2147) == NatToString(214) + "7";
    assert NatToString(21474) == NatToString(2147) + "4";
    assert NatToString(214748) == NatToString(21474) + "8";
    assert NatToString(2147483) == NatToString(214748) + "3";
    assert NatToString(21474836) == NatToString(2147483) + "6";
    assert NatToString(214748364) == NatToString(21474836) + "4";
    assert NatToString(2147483647) == NatToString(214748364) + "7";
  }

  // ---------------------------------------------------------------- the object

  /** One step of a 32-bit counter that has not reached `target` brings it one closer, counting
      the distance upwards modulo 2^32. */
  lemma StepCloser(target: Int32, x: Int32)
    requires x != target
    ensures (target - Wrap32(x + 1)) % TWO_32 == (target - x) % TWO_32 - 1
  {
    if x == INT_MAX {
      Wrap32Boundaries();
      assert 0 <= target - INT_MIN < TWO_32;
      assert -TWO_32 < target - x < 0;
    } else {
      Wrap32Identity(x + 1);
      if target > x {
        assert 0 < target - x < TWO_32;
      } else {
        assert -TWO_32 < target - x < 0;
      }
    }
  }

  /** The counting loop of `isPageInRange` over one segment: a 32-bit `pageIndex` runs from
      the first page while it is at most the last, and the loop stops when it meets the page.
      Counting up to `Integer.MAX_VALUE` never ends the loop: the counter wraps around and
      eventually meets every `int`. */
  method CountingLoopMeets(firstPage: Int32, lastPage: Int32, page: Int32) returns (met: bool)
    requires firstPage <= lastPage
    ensures met <==> firstPage <= page <= lastPage || lastPage == INT_MAX
  {
    var pageIndex: Int32 := firstPage;
    while pageIndex <= lastPage
      invariant lastPage < INT_MAX ==> firstPage <= pageIndex <= lastPage + 1
      invariant lastPage < INT_MAX ==> !(firstPage <= page < pageIndex)
      decreases (page - pageIndex) % TWO_32
    {
      if pageIndex == page {
        return true;
      }
      StepCloser(page, pageIndex);
      if pageIndex < INT_MAX {
        Wrap32Identity(pageIndex + 1);
      }
      pageIndex := Wrap32(pageIndex + 1);
    }
    return false;
  }

  /** `ExtractPageExpression`: the expression's tokens, fixed at construction. */
  class ExtractPageExpression {
    const expressionsList: seq<string>

    /** Substitutes the page count for every `n` and splits on `,`. */
    constructor (expression: string, numberOfPages: nat)
      requires numberOfPages <= INT_MAX
      ensures expressionsList == Tokens(expression, numberOfPages)
    {
      expressionsList := Split(Replace(expression, 'n', NatToString(numberOfPages)), ',');
    }

    /** `isPageInRange` as written: for each token, parse it, then count `pageIndex` from the
        first page up to the last with a 32-bit `int`, answering true when it meets the page.
        The answer depends only on the fixed token list and the page. */
    method IsPageInRange(pageNumberToCheck: Int32) returns (r: Result<bool, Thrown>)
      ensures r == InRangeAsWritten(expressionsList, pageNumberToCheck)
    {
      var p := pageNumberToCheck;
      var i := 0;
      while i < |expressionsList|
        invariant 0 <= i <= |expressionsList|
        invariant InRangeAsWritten(expressionsList[i..], p) == InRangeAsWritten(expressionsList, p)
      {
        assert expressionsList[i..][1..] == expressionsList[i + 1..];
        var segment := ParseSegment(expressionsList[i]);
        if segment.None? {
          return Failure(ConnectorException(INVALID_EXPRESSION));
        }
        var met := CountingLoopMeets(segment.value.first, segment.value.last, p);
        if met {
          return Success(true);
        }
        i := i + 1;
      }
      return Success(false);
    }

    /** `isPageInRange` with the counting loop replaced by the comparison it stands for, so
        that a segment ending at `Integer.MAX_VALUE` selects only its own pages. */
    method IsPageInRangeFixed(pageNumberToCheck: Int32) returns (r: Result<bool, Thrown>)
      ensures r == InRange(expressionsList, pageNumberToCheck)
    {
      var i := 0;
      while i < |expressionsList|
        invariant 0 <= i <= |expressionsList|
        invariant InRange(expressionsList[i..], pageNumberToCheck) == InRange(expressionsList, pageNumberToCheck)
      {
        assert expressionsList[i..][1..] == expressionsList[i + 1..];
        var segment := ParseSegment(expressionsList[i]);
        if segment.None? {
          return Failure(ConnectorException(INVALID_EXPRESSION));
        }
        if segment.value.first <= pageNumberToCheck <= segment.value.last {
          return Success(true);
        }
        i := i + 1;
      }
      return Success(false);
    }
  }
}
