/** `cluster/server/WebServer`: the worker's HTTP surface. `POST /task`
    multiplies the comma-separated integers of the request body;
    `GET /status` reports that the worker is alive. */
module WebServer {
  import opened Common
  import opened JavaStrings
  import opened BigInteger

  const RESPONSE_PREFIX: string := "Result of the multiplication is "
  const DUMMY_RESPONSE: string := "123\n"
  const STATUS_RESPONSE: string := "Server is alive"
  const DEBUG_INFO_HEADER: string := "X-Debug-Info"

  // ---------------------------------------------------------------------------
  // calculateResponse
  // ---------------------------------------------------------------------------

  /** The loop of `calculateResponse` over the first `n` tokens: starting
      from one, each token is parsed with `new BigInteger` and multiplied
      in; the first token that does not parse ends it. */
  function ProductUpTo(tokens: seq<string>, n: nat): (r: Result<int>)
    requires n <= |tokens|
    ensures r.Err? ==> r.error == NumberFormat
  {
    if n == 0 then Ok(1)
    else match ProductUpTo(tokens, n - 1)
      case Err(e) => Err(e)
      case Ok(p) =>
        match Parse(tokens[n - 1])
        case Err(e) => Err(e)
        case Ok(v) => Ok(p * v)
  }

  /** `"Result of the multiplication is " + product + "\n"`. */
  function Reply(product: int): string
  {
    RESPONSE_PREFIX + ToString(product) + "\n"
  }

  /** What `calculateResponse` returns for a request body, or the
      `NumberFormatException` it raises. */
  function Response(body: string): (r: Result<string>)
    ensures r.Err? ==> r.error == NumberFormat
  {
    var tokens := Split(body, ',');
    match ProductUpTo(tokens, |tokens|)
    case Err(e) => Err(e)
    case Ok(p) => Ok(Reply(p))
  }

  /** `calculateResponse`, step by step. */
  method CalculateResponse(body: string) returns (r: Result<string>)
    ensures r == Response(body)
  {
    var stringNumbers := Split(body, ',');
    var result := 1;
    var i := 0;
    while i < |stringNumbers|
      invariant 0 <= i <= |stringNumbers|
      invariant ProductUpTo(stringNumbers, i) == Ok(result)
    {
      var number := Parse(stringNumbers[i]);
      if number.Err? {
        NumberFormatSticks(stringNumbers, i + 1, |stringNumbers|);
        return Err(number.error);
      }
      result := result * number.value;
      i := i + 1;
    }
    r := Ok(Reply(result));
  }

  /** Once a token fails to parse, the whole product fails. */
  lemma {:induction false} NumberFormatSticks(tokens: seq<string>, n: nat, m: nat)
    requires n <= m <= |tokens| && ProductUpTo(tokens, n).Err?
    ensures ProductUpTo(tokens, m) == Err(NumberFormat)
    decreases m - n
  {
    if n < m {
      NumberFormatSticks(tokens, n + 1, m);
    }
  }

  // ---------------------------------------------------------------------------
  // A reference definition: every token an integer, and their product
  // ---------------------------------------------------------------------------

  predicate AllLiterals(tokens: seq<string>)
  {
    forall k :: 0 <= k < |tokens| ==> IsIntegerLiteral(tokens[k])
  }

  /** The first `n` tokens are integers exactly when the first `n - 1` are
      and the `n`-th is. */
  lemma AllLiteralsStep(tokens: seq<string>, n: nat)
    requires 0 < n <= |tokens|
    ensures AllLiterals(tokens[..n]) <==> AllLiterals(tokens[..n - 1]) && IsIntegerLiteral(tokens[n - 1])
  {
    if AllLiterals(tokens[..n - 1]) {
      forall k | 0 <= k < n - 1 ensures IsIntegerLiteral(tokens[..n][k]) {
        assert tokens[..n][k] == tokens[..n - 1][k];
      }
    }
  }

  /** The value of an integer literal (zero for anything else). */
  function Value(token: string): int
  {
    match Parse(token)
    case Ok(v) => v
    case Err(_) => 0
  }

  /** The product of `f` over the elements of `s`. */
  function ProductOf<T>(s: seq<T>, f: T -> int): int
  {
    if |s| == 0 then 1 else ProductOf(s[..|s| - 1], f) * f(s[|s| - 1])
  }

  /** The product of the values of the tokens. */
  function Multiply(tokens: seq<string>): int
  {
    ProductOf(tokens, Value)
  }

  /** The loop computes the product of the tokens when every token is an
      integer, and fails with `NumberFormatException` otherwise. */
  lemma {:induction false} ProductIsMultiply(tokens: seq<string>, n: nat)
    requires n <= |tokens|
    ensures ProductUpTo(tokens, n) == if AllLiterals(tokens[..n]) then Ok(Multiply(tokens[..n])) else Err(NumberFormat)
  {
    if n > 0 {
      ProductIsMultiply(tokens, n - 1);
      TakeOfTake(tokens, n - 1, n);
      AllLiteralsStep(tokens, n);
    }
  }

  /** `calculateResponse` succeeds exactly when every token is an integer,
      and then replies with their product. */
  lemma ResponseIsProduct(body: string)
    ensures var tokens := Split(body, ',');
      Response(body) == if AllLiterals(tokens) then Ok(Reply(Multiply(tokens))) else Err(NumberFormat)
  {
    var tokens := Split(body, ',');
    ProductIsMultiply(tokens, |tokens|);
    assert tokens[..|tokens|] == tokens;
  }

  /** The product over a concatenation is the product of the products. */
  lemma {:induction false} ProductOfConcat<T>(a: seq<T>, b: seq<T>, f: T -> int)
    ensures ProductOf(a + b, f) == ProductOf(a, f) * ProductOf(b, f)
    decreases |b|
  {
    if |b| == 0 {
      assert a + b == a;
    } else {
      var n := |b|;
      var ab := a + b;
      assert ab[..|ab| - 1] == a + b[..n - 1] && ab[|ab| - 1] == b[n - 1];
      ProductOfConcat(a, b[..n - 1], f);
      var p, q, v := ProductOf(a, f), ProductOf(b[..n - 1], f), f(b[n - 1]);
      assert ProductOf(ab, f) == (p * q) * v;
      assert ProductOf(b, f) == q * v;
      MultiplyAssociates(p, q, v);
    }
  }

  lemma MultiplyAssociates(p: int, q: int, v: int)
    ensures (p * q) * v == p * (q * v)
    ensures p * (v * q) == (p * q) * v
  {
  }

  /** Taking the last element off one list and the same element off a
      permutation of it leaves permutations of each other. */
  lemma RemoveMatching<T>(a: seq<T>, b: seq<T>, j: nat)
    requires multiset(a) == multiset(b) && |a| > 0 && j < |b| && b[j] == a[|a| - 1]
    ensures multiset(a[..|a| - 1]) == multiset(b[..j] + b[j + 1..])
  {
    var x := b[j];
    var front, left, right := a[..|a| - 1], b[..j], b[j + 1..];
    assert a == front + [x];
    assert b == left + [x] + right;
    calc {
      multiset(front) + multiset{x};
      multiset(b);
      multiset(left) + multiset{x} + multiset(right);
      multiset(left + right) + multiset{x};
    }
    AddCancels(multiset(front), multiset(left + right), x);
  }

  /** The order of the elements does not change the product. */
  lemma {:induction false} ProductOfPermutation<T>(a: seq<T>, b: seq<T>, f: T -> int)
    requires multiset(a) == multiset(b)
    ensures ProductOf(a, f) == ProductOf(b, f)
    decreases |a|
  {
    if |a| == 0 {
      assert |b| == |multiset(b)| == 0;
    } else {
      var n := |a|;
      var x := a[n - 1];
      assert x in multiset(b);
      var j :| 0 <= j < |b| && b[j] == x;
      var left, right := b[..j], b[j + 1..];
      RemoveMatching(a, b, j);
      ProductOfPermutation(a[..n - 1], left + right, f);
      assert b == left + ([x] + right);
      ProductOfConcat(left, [x] + right, f);
      ProductOfConcat([x], right, f);
      ProductOfConcat(left, right, f);
      assert ProductOf([x], f) == f(x) by { assert [x][..0] == []; }
      MultiplyAssociates(ProductOf(left, f), ProductOf(right, f), f(x));
    }
  }

  /** Reordering the tokens keeps them all integers, or all not. */
  lemma AllLiteralsPermutation(a: seq<string>, b: seq<string>)
    requires multiset(a) == multiset(b) && AllLiterals(a)
    ensures AllLiterals(b)
  {
    forall k | 0 <= k < |b| ensures IsIntegerLiteral(b[k]) {
      assert b[k] in multiset(a);
    }
  }

  /** Reordering the numbers of the body does not change the reply. */
  lemma ReorderedBodySameResponse(body: string, reordered: string)
    requires multiset(Split(body, ',')) == multiset(Split(reordered, ','))
    ensures Response(body) == Response(reordered)
  {
    ResponseIsProduct(body);
    ResponseIsProduct(reordered);
    var a, b := Split(body, ','), Split(reordered, ',');
    if AllLiterals(a) {
      AllLiteralsPermutation(a, b);
    } else if AllLiterals(b) {
      AllLiteralsPermutation(b, a);
    }
    ProductOfPermutation(a, b, Value);
  }

  /** A zero factor makes the product zero. */
  lemma ProductOfZero<T>(s: seq<T>, f: T -> int, k: nat)
    requires k < |s| && f(s[k]) == 0
    ensures ProductOf(s, f) == 0
  {
    var left, right := s[..k], s[k + 1..];
    assert s == left + ([s[k]] + right);
    ProductOfConcat(left, [s[k]] + right, f);
    ProductOfConcat([s[k]], right, f);
    assert ProductOf([s[k]], f) == 0 by { assert [s[k]][..0] == []; }
  }

  /** A zero among the numbers makes the reply zero. */
  lemma ZeroTokenGivesZero(body: string, k: nat)
    requires var tokens := Split(body, ',');
      AllLiterals(tokens) && k < |tokens| && Value(tokens[k]) == 0
    ensures Response(body) == Ok(Reply(0))
  {
    ResponseIsProduct(body);
    ProductOfZero(Split(body, ','), Value, k);
  }

  /** The number in the reply reads back as the product. */
  lemma ReplyCarriesProduct(p: int)
    ensures var text := Reply(p);
      && |text| > |RESPONSE_PREFIX|
      && text[..|RESPONSE_PREFIX|] == RESPONSE_PREFIX
      && text[|text| - 1] == '\n'
      && Parse(text[|RESPONSE_PREFIX|..|text| - 1]) == Ok(p)
  {
    var text := Reply(p);
    assert text[|RESPONSE_PREFIX|..|text| - 1] == ToString(p);
    ParseToString(p);
  }

  // ---------------------------------------------------------------------------
  // The shape of the body
  // ---------------------------------------------------------------------------

  /** Splitting a join of two or more separator-free pieces, the last one
      not empty, gives the pieces back. */
  lemma SplitJoin(pieces: seq<string>, sep: char)
    requires |pieces| >= 2 && pieces[|pieces| - 1] != ""
    requires forall k :: 0 <= k < |pieces| ==> sep !in pieces[k]
    ensures Split(Join(pieces, sep), sep) == pieces
  {
    PiecesJoin(pieces, sep);
    var s := Join(pieces, sep);
    assert s == pieces[0] + [sep] + Join(pieces[1..], sep);
    assert s[|pieces[0]|] == sep;
  }

  /** `"2,3,4"` gets the reply for 24. */
  lemma Example()
    ensures Response("2,3,4") == Ok("Result of the multiplication is 24\n")
  {
    ExampleSplit();
    ResponseIsProduct("2,3,4");
    ExampleLiterals();
    ExampleProduct();
    ExampleReply();
  }

  lemma ExampleLiterals()
    ensures AllLiterals(["2", "3", "4"])
  {
    assert IsIntegerLiteral("2") && IsIntegerLiteral("3") && IsIntegerLiteral("4");
  }

  lemma ExampleReply()
    ensures Reply(24) == "Result of the multiplication is 24\n"
  {
    assert NatToString(24) == "24";
    assert Reply(24) == RESPONSE_PREFIX + "24" + "\n";
  }

  lemma ExampleSplit()
    ensures Split("2,3,4", ',') == ["2", "3", "4"]
  {
    var tokens := ["2", "3", "4"];
    assert Join(tokens[2..], ',') == "4";
    assert Join(tokens[1..], ',') == "3,4";
    assert Join(tokens, ',') == "2,3,4";
    SplitJoin(tokens, ',');
  }

  lemma ExampleProduct()
    ensures Multiply(["2", "3", "4"]) == 24
  {
    assert Value("2") == 2 && Value("3") == 3 && Value("4") == 4 by {
      assert "2"[..0] == "" && "3"[..0] == "" && "4"[..0] == "";
    }
    var tokens := ["2", "3", "4"];
    assert tokens[..2] == ["2", "3"] && tokens[..2][..1] == ["2"] && tokens[..2][..1][..0] == [];
    assert ProductOf(["2"], Value) == 2;
    assert ProductOf(["2", "3"], Value) == 6;
  }

  /** An empty body is one empty token, which is not a number. */
  lemma EmptyBodyFails()
    ensures Response("") == Err(NumberFormat)
  {
    assert Split("", ',') == [""];
  }

  /** A comma at the end of a non-empty body changes nothing. */
  lemma TrailingCommaIgnored(body: string)
    requires body != ""
    ensures Response(body + ",") == Response(body)
  {
    SplitTrailingSeparator(body, ',');
  }

  /** A body of commas only has no tokens at all, so the product is one. */
  lemma {:induction false} OnlyCommasGiveOne(body: string)
    requires |body| > 0 && forall i :: 0 <= i < |body| ==> body[i] == ','
    ensures Response(body) == Ok(Reply(1))
  {
    AllCommasPieces(body);
    assert ',' in body by { assert body[0] == ','; }
    assert DropTrailingEmpty(Pieces(body, ',')) == [];
  }

  lemma {:induction false} AllCommasPieces(s: string)
    requires forall i :: 0 <= i < |s| ==> s[i] == ','
    ensures forall k :: 0 <= k < |Pieces(s, ',')| ==> Pieces(s, ',')[k] == ""
    decreases |s|
  {
    if |s| > 0 {
      AllCommasPieces(s[1..]);
    }
  }

  /** The pieces of `",after"`, with `after` free of commas. */
  lemma LeadingCommaPieces(after: string)
    requires ',' !in after
    ensures Pieces("," + after, ',') == ["", after]
  {
    var pieces := ["", after];
    assert Join(pieces[1..], ',') == after;
    assert Join(pieces, ',') == "," + after;
    PiecesJoin(pieces, ',');
  }

  /** An empty token from a leading comma makes the body fail. */
  lemma LeadingCommaFails(after: string)
    requires ',' !in after && after != ""
    ensures Response("," + after) == Err(NumberFormat)
  {
    LeadingCommaPieces(after);
    assert ("," + after)[0] == ',';
    EmptyTokenInside(Split("," + after, ','), 0);
    ResponseIsProduct("," + after);
  }

  /** An empty token from a doubled comma makes the body fail. */
  lemma DoubledCommaFails(before: string, after: string)
    requires ',' !in after && after != ""
    ensures Response(before + "," + "," + after) == Err(NumberFormat)
  {
    var s := before + "," + "," + after;
    assert s == before + "," + ("," + after);
    LeadingCommaPieces(after);
    PiecesTail(before, "," + after);
    var p := Pieces(s, ',');
    assert p[|p| - 2] == "" && p[|p| - 1] == after by {
      assert p[|p| - 2..] == ["", after];
    }
    assert s[|before|] == ',';
    assert Split(s, ',') == p;
    EmptyTokenInside(p, |p| - 2);
    ResponseIsProduct(s);
  }

  /** The pieces of `before + "," + rest` end with the pieces of `rest`. */
  lemma {:induction false} PiecesTail(before: string, rest: string)
    ensures var p := Pieces(before + "," + rest, ',');
      |p| > |Pieces(rest, ',')| && p[|p| - |Pieces(rest, ',')|..] == Pieces(rest, ',')
    decreases |before|
  {
    var s := before + "," + rest;
    if |before| == 0 {
      assert s == [','] + rest && s[1..] == rest;
    } else {
      assert s[1..] == before[1..] + "," + rest;
      PiecesTail(before[1..], rest);
      var tail, last := Pieces(s[1..], ','), Pieces(rest, ',');
      if s[0] == ',' {
        SuffixAfterCons([""], tail, last);
      } else {
        SuffixAfterCons([[s[0]] + tail[0]], tail[1..], last);
      }
    }
  }

  /** A suffix of `t` is a suffix of `h + t`. */
  lemma SuffixAfterCons<T>(h: seq<T>, t: seq<T>, r: seq<T>)
    requires |t| >= |r| && t[|t| - |r|..] == r
    ensures (h + t)[|h + t| - |r|..] == r
  {
    assert (h + t)[|h + t| - |r|..] == t[|t| - |r|..];
  }

  /** A token list with an empty token is not all integers. */
  lemma EmptyTokenInside(tokens: seq<string>, k: nat)
    requires k < |tokens| && tokens[k] == ""
    ensures !AllLiterals(tokens)
  {
    assert !IsIntegerLiteral(tokens[k]);
  }

  // ---------------------------------------------------------------------------
  // The exchange and the handlers
  // ---------------------------------------------------------------------------

  /** A request as the handlers see it: the method, the request headers by
      name, and the body decoded as text. */
  datatype Request = Request(requestMethod: string, headers: map<string, seq<string>>, body: string)

  /** A response delivered to the client: status, headers and body. */
  datatype Sent = Sent(status: int, headers: map<string, seq<string>>, body: string)

  /** `headers.containsKey(name) && headers.get(name).get(0).equalsIgnoreCase("true")`:
      the test's value, or the `IndexOutOfBoundsException` of `get(0)` when
      the header is present with no value. */
  function HeaderFlag(headers: map<string, seq<string>>, name: string): (r: Result<bool>)
    ensures r == Ok(true) <==> name in headers && |headers[name]| > 0 && EqualsIgnoreCase(headers[name][0], "true")
    ensures r.Err? ==> r.error == IndexOutOfBounds
  {
    if name !in headers then Ok(false)
    else if |headers[name]| == 0 then Err(IndexOutOfBounds)
    else Ok(EqualsIgnoreCase(headers[name][0], "true"))
  }

  /** `String.format("Operation took %d ns\n", elapsed)`. */
  function DebugMessage(elapsed: int): string
  {
    "Operation took " + ToString(elapsed) + " ns\n"
  }

  /** `HttpExchange`: the request, the response headers, and what has been
      delivered so far. Response headers can be sent once. */
  class Exchange {
    const request: Request
    var responseHeaders: map<string, seq<string>>
    var sent: seq<Sent>
    /** Whether the exchange's streams are closed. Closing the exchange, or
        the fixed-length response stream once the response is written, also
        closes the request body stream of the JDK's HTTP server. */
    var closed: bool

    constructor (request: Request)
      ensures this.request == request
      ensures responseHeaders == map[] && sent == [] && !closed
    {
      this.request := request;
      responseHeaders := map[];
      sent := [];
      closed := false;
    }

    /** `close()` without a response. */
    method Close()
      modifies this`closed
      ensures closed
    {
      closed := true;
    }

    /** `sendResponse`: sends status 200 with the body's length and the
        current response headers, writes the body and closes the stream.
        Headers that were already sent make `sendResponseHeaders` raise an
        `IOException` and nothing more is delivered. */
    method SendResponse(body: string) returns (thrown: Option<Error>)
      modifies this`sent, this`closed
      ensures old(sent) != [] ==> thrown == Some(Io) && unchanged(this)
      ensures old(sent) == [] ==> thrown == None && sent == [Sent(200, responseHeaders, body)] && closed
    {
      if sent != [] {
        return Some(Io);
      }
      sent := sent + [Sent(200, responseHeaders, body)];
      closed := true;
      thrown := None;
    }

    /** `getRequestBody().readAllBytes()`: the body, or the `IOException`
        of a request body stream that is already closed. */
    method ReadBody() returns (r: Result<string>)
      ensures r == if closed then Err(Io) else Ok(request.body)
    {
      if closed {
        return Err(Io);
      }
      r := Ok(request.body);
    }

    /** `getResponseHeaders().put(name, values)`. */
    method PutResponseHeader(name: string, values: seq<string>)
      modifies this`responseHeaders
      ensures responseHeaders == old(responseHeaders)[name := values]
    {
      responseHeaders := responseHeaders[name := values];
    }
  }

  /** How a handler leaves a fresh exchange: what was delivered, whether the
      exchange was closed, and the exception that escapes, if any. */
  datatype Handled = Handled(sent: seq<Sent>, closed: bool, thrown: Option<Error>)

  /** `handleTaskRequest` as written, on a fresh exchange; `elapsed` is what
      the clock reports around `calculateResponse`. */
  function TaskHandled(request: Request, elapsed: int): (h: Handled)
    ensures |h.sent| <= 1
    ensures h.sent != [] ==> h.closed
    ensures h.thrown == None ==> h.closed
  {
    if !EqualsIgnoreCase(request.requestMethod, "post") then Handled([], true, None)
    else match HeaderFlag(request.headers, "X-Test")
      case Err(e) => Handled([], false, Some(e))
      case Ok(test) =>
        var before := if test then [Sent(200, map[], DUMMY_RESPONSE)] else [];
        match HeaderFlag(request.headers, "X-Debug")
        case Err(e) => Handled(before, test, Some(e))
        case Ok(debug) =>
          if test then Handled(before, true, Some(Io))
          else match Response(request.body)
            case Err(e) => Handled([], false, Some(e))
            case Ok(reply) =>
              var headers := if debug then map[DEBUG_INFO_HEADER := [DebugMessage(elapsed)]] else map[];
              Handled([Sent(200, headers, reply)], true, None)
  }

  /** `handleStatusCheckRequest` on a fresh exchange. */
  function StatusHandled(request: Request): Handled
  {
    if !EqualsIgnoreCase(request.requestMethod, "get") then Handled([], true, None)
    else Handled([Sent(200, map[], STATUS_RESPONSE)], true, None)
  }

  /** `handleTaskRequest`, as written: with `X-Test: true` the dummy
      response is sent and handling goes on to read the body. */
  method HandleTaskRequest(exchange: Exchange, elapsed: int) returns (thrown: Option<Error>)
    requires exchange.sent == [] && exchange.responseHeaders == map[] && !exchange.closed
    modifies exchange
    ensures Handled(exchange.sent, exchange.closed, thrown) == TaskHandled(exchange.request, elapsed)
  {
    var request := exchange.request;
    if !EqualsIgnoreCase(request.requestMethod, "post") {
      exchange.Close();
      return None;
    }
    var test := HeaderFlag(request.headers, "X-Test");
    if test.Err? {
      return Some(test.error);
    }
    if test.value {
      var _ := exchange.SendResponse(DUMMY_RESPONSE);
    }
    var debug := HeaderFlag(request.headers, "X-Debug");
    if debug.Err? {
      return Some(debug.error);
    }
    var body := exchange.ReadBody();
    if body.Err? {
      return Some(body.error);
    }
    var response := CalculateResponse(body.value);
    if response.Err? {
      return Some(response.error);
    }
    if debug.value {
      exchange.PutResponseHeader(DEBUG_INFO_HEADER, [DebugMessage(elapsed)]);
    }
    thrown := exchange.SendResponse(response.value);
  }

  /** `handleStatusCheckRequest`. */
  method HandleStatusCheckRequest(exchange: Exchange) returns (thrown: Option<Error>)
    requires exchange.sent == [] && exchange.responseHeaders == map[] && !exchange.closed
    modifies exchange
    ensures Handled(exchange.sent, exchange.closed, thrown) == StatusHandled(exchange.request)
  {
    if !EqualsIgnoreCase(exchange.request.requestMethod, "get") {
      exchange.Close();
      return None;
    }
    thrown := exchange.SendResponse(STATUS_RESPONSE);
  }

  // ---------------------------------------------------------------------------
  // What the handlers promise
  // ---------------------------------------------------------------------------

  /** Any other method than POST on `/task`, or than GET on `/status`, closes
      the exchange with nothing delivered. */
  lemma WrongMethodCloses(request: Request, elapsed: int)
    ensures !EqualsIgnoreCase(request.requestMethod, "post") ==> TaskHandled(request, elapsed) == Handled([], true, None)
    ensures !EqualsIgnoreCase(request.requestMethod, "get") ==> StatusHandled(request) == Handled([], true, None)
    ensures EqualsIgnoreCase(request.requestMethod, "get") ==> StatusHandled(request).sent == [Sent(200, map[], STATUS_RESPONSE)]
  {
  }

  /** A POST without the test header delivers exactly the reply of
      `calculateResponse`, with the timing header in debug mode, or nothing
      when the body is not a list of integers. */
  lemma TaskRepliesWithProduct(request: Request, elapsed: int)
    requires EqualsIgnoreCase(request.requestMethod, "post")
    requires HeaderFlag(request.headers, "X-Test") == Ok(false)
    requires HeaderFlag(request.headers, "X-Debug").Ok?
    ensures var h := TaskHandled(request, elapsed); var tokens := Split(request.body, ',');
      if AllLiterals(tokens) then
        h.sent == [Sent(200, if HeaderFlag(request.headers, "X-Debug").value then map[DEBUG_INFO_HEADER := [DebugMessage(elapsed)]] else map[], Reply(Multiply(tokens)))]
        && h.thrown == None
      else h.sent == [] && h.thrown == Some(NumberFormat)
  {
    ResponseIsProduct(request.body);
  }

  /** As written, `X-Test: true` delivers only the dummy response, yet the
      handler goes on and reads the body from the request stream that the
      dummy response closed, which raises an `IOException` whatever the body. */
  lemma TestHeaderDeliversDummyThenFails(request: Request, elapsed: int)
    requires EqualsIgnoreCase(request.requestMethod, "post")
    requires HeaderFlag(request.headers, "X-Test") == Ok(true)
    requires HeaderFlag(request.headers, "X-Debug").Ok?
    ensures TaskHandled(request, elapsed).sent == [Sent(200, map[], DUMMY_RESPONSE)]
    ensures TaskHandled(request, elapsed).thrown == Some(Io)
  {
  }

  /** A concrete request that shows it: `X-Test: true` and body `"2,3"`. */
  lemma TestHeaderCounterexample()
    ensures var request := Request("POST", map["X-Test" := ["true"]], "2,3");
      TaskHandled(request, 0) == Handled([Sent(200, map[], DUMMY_RESPONSE)], true, Some(Io))
  {
    assert EqualsIgnoreCase("POST", "post");
    assert EqualsIgnoreCase("true", "true");
  }

  /** `handleTaskRequest` as evidently intended: `X-Test: true` answers
      with the dummy response and stops. */
  function CorrectedTaskHandled(request: Request, elapsed: int): (h: Handled)
    ensures EqualsIgnoreCase(request.requestMethod, "post") && HeaderFlag(request.headers, "X-Test") == Ok(true) ==>
      h == Handled([Sent(200, map[], DUMMY_RESPONSE)], true, None)
    ensures !(EqualsIgnoreCase(request.requestMethod, "post") && HeaderFlag(request.headers, "X-Test") == Ok(true)) ==>
      h == TaskHandled(request, elapsed)
  {
    if EqualsIgnoreCase(request.requestMethod, "post") && HeaderFlag(request.headers, "X-Test") == Ok(true) then
      Handled([Sent(200, map[], DUMMY_RESPONSE)], true, None)
    else TaskHandled(request, elapsed)
  }

  /** The corrected handler: returns right after the dummy response. */
  method CorrectedHandleTaskRequest(exchange: Exchange, elapsed: int) returns (thrown: Option<Error>)
    requires exchange.sent == [] && exchange.responseHeaders == map[] && !exchange.closed
    modifies exchange
    ensures Handled(exchange.sent, exchange.closed, thrown) == CorrectedTaskHandled(exchange.request, elapsed)
  {
    var request := exchange.request;
    if EqualsIgnoreCase(request.requestMethod, "post") {
      var test := HeaderFlag(request.headers, "X-Test");
      if test == Ok(true) {
        thrown := exchange.SendResponse(DUMMY_RESPONSE);
        return;
      }
    }
    thrown := HandleTaskRequest(exchange, elapsed);
  }

  /** Whatever the request, each handler delivers at most one response. */
  lemma CorrectedDeliversAtMostOnce(request: Request, elapsed: int)
    ensures |CorrectedTaskHandled(request, elapsed).sent| <= 1
    ensures |TaskHandled(request, elapsed).sent| <= 1
  {
  }
}
