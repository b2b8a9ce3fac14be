/**
 * The report handler: decode a filter, search, parse the report template, and serve
 * the rendered report as an HTML attachment; and the `mod` helper the template calls.
 * No route leads to the handler; it is modelled as the function it is.
 */
module ProductReport {
  import opened Wrappers
  import opened Http
  import opened ProductModel
  import opened ProductData

  const ReportFileName: string := "report.html"

  /** The header entries of a served report. */
  const ReportHeader: map<string, string> :=
    map["Content-Disposition" := "attachment", "Content-Type" := "text/html"]

  /** The operations the handler invokes. */
  datatype ReportCall =
    | RunQuery(statement: string, args: seq<string>) // the database query of searchForProductData
    | Render(rows: seq<Product>)                     // executing the parsed template over the rows

  /**
   * What the database and the template library answer: the rows a statement and its
   * arguments select (`None` when the query fails), and whether the template file parses.
   */
  datatype ReportEnv = ReportEnv(runQuery: (string, seq<string>) -> Option<seq<Product>>, templateParses: bool)

  /** The rows the search finds for a filter, or `None` on a database error. */
  function SearchRows(f: ReportFilter, env: ReportEnv): Option<seq<Product>>
  {
    env.runQuery(SearchQuery(f).0, SearchQuery(f).1)
  }

  /** The request is a POST whose filter decoded and whose search succeeded. */
  predicate Searched(req: Request<ReportFilter>, env: ReportEnv)
  {
    req.verb == MethodPost && req.body.Decoded? && SearchRows(req.body.value, env).Some?
  }

  /** `handleProductReport`. */
  function ReportHandler(req: Request<ReportFilter>, env: ReportEnv): (r: Handled<ReportCall>)
    ensures r.response.status == Some(StatusBadRequest) <==> req.verb == MethodPost && !req.body.Decoded?
    ensures r.response.status == Some(StatusInternalServerError) <==>
              req.verb == MethodPost && req.body.Decoded? &&
              (SearchRows(req.body.value, env).None? || !env.templateParses)
    // the template is checked before the row count
    ensures r.response.status == Some(StatusNotFound) <==>
              Searched(req, env) && env.templateParses && |SearchRows(req.body.value, env).value| == 0
    ensures r.response.status == Some(StatusMethodNotAllowed) <==>
              req.verb != MethodPost && req.verb != MethodOptions
    ensures r.response.payload == Served(ReportFileName) <==>
              Searched(req, env) && env.templateParses && |SearchRows(req.body.value, env).value| > 0
    ensures r.response.payload != NoPayload ==>
              r.response.status == None && r.response.payload == Served(ReportFileName) &&
              r.response.header == ReportHeader
    ensures r.response.payload == NoPayload ==> r.response.header == map[]
    ensures r.response.status == None <==> r.response.payload != NoPayload || req.verb == MethodOptions
    // a search is run only for a decoded filter, and with the statement built from it
    ensures (req.verb == MethodPost && req.body.Decoded?) <==> |r.calls| >= 1
    ensures |r.calls| >= 1 ==> r.calls[0] == RunQuery(SearchQuery(req.body.value).0, SearchQuery(req.body.value).1)
    ensures |r.calls| == 2 <==> r.response.payload != NoPayload
    ensures |r.calls| == 2 ==> r.calls[1] == Render(SearchRows(req.body.value, env).value)
    ensures |r.calls| <= 2
  {
    if req.verb == MethodPost then
      match req.body
      case Unreadable => Handled(StatusOnly(StatusBadRequest), [])
      case Malformed => Handled(StatusOnly(StatusBadRequest), [])
      case Decoded(f) =>
        var (statement, args) := SearchQuery(f);
        var search := [RunQuery(statement, args)];
        match env.runQuery(statement, args)
        case None => Handled(StatusOnly(StatusInternalServerError), search)
        case Some(rows) =>
          if !env.templateParses then Handled(StatusOnly(StatusInternalServerError), search)
          else if |rows| == 0 then Handled(StatusOnly(StatusNotFound), search)
          else Handled(Response(None, ReportHeader, Served(ReportFileName)), search + [Render(rows)])
    else if req.verb == MethodOptions then
      Handled(Untouched(), [])
    else
      Handled(StatusOnly(StatusMethodNotAllowed), [])
  }

  // ---------------------------------------------------------------- properties

  /** A search that finds nothing with a template that does not parse gets 500, not 404. */
  lemma EmptyResultWithBrokenTemplate(f: ReportFilter, env: ReportEnv)
    requires SearchRows(f, env) == Some([]) && !env.templateParses
    ensures ReportHandler(Request(MethodPost, "", Decoded(f)), env).response == StatusOnly(StatusInternalServerError)
  {
  }

  /** The statement the handler hands to the database carries one placeholder per argument and starts with the fixed prefix. */
  lemma QueryIsConsistent(req: Request<ReportFilter>, env: ReportEnv)
    requires |ReportHandler(req, env).calls| >= 1
    ensures var q := ReportHandler(req, env).calls[0];
      Placeholders(q.statement) == |q.args| && |q.args| <= 3 &&
      q.statement[..|SearchPrefix|] == SearchPrefix
  {
    PlaceholdersMatchArgs(req.body.value);
    ArgsCount(req.body.value);
  }

  // ---------------------------------------------------------------- the template's `mod`

  function Abs(x: int): nat
  {
    if x < 0 then -x else x
  }

  /** The quotient of Go's `/` on integers: truncated toward zero. */
  function GoQuo(x: int, y: int): int
    requires y != 0
  {
    var q := Abs(x) / Abs(y);
    if (x < 0) == (y < 0) then q else -q
  }

  /** Go's `%` on integers: the remainder of the truncated division, so it takes the sign of `x`. */
  function GoRem(x: int, y: int): (r: int)
    requires y != 0
    ensures x == GoQuo(x, y) * y + r
    ensures Abs(r) < Abs(y)
    ensures r != 0 ==> (r < 0 <==> x < 0)
  {
    var m := Abs(x) % Abs(y);
    TruncatedDivision(x, y);
    if x < 0 then -m else m
  }

  /** Dividend, truncated quotient and remainder fit together, for every sign of the operands. */
  lemma TruncatedDivision(x: int, y: int)
    requires y != 0
    ensures x == GoQuo(x, y) * y + (if x < 0 then -(Abs(x) % Abs(y)) else Abs(x) % Abs(y))
  {
    var q, m := Abs(x) / Abs(y), Abs(x) % Abs(y);
    assert Abs(x) == q * Abs(y) + m;
    if y < 0 {
      assert q * Abs(y) == (-q) * y;
    }
  }

  /** The template helper `mod(x, y)`: whether `x % y == 0`; it holds exactly when `y` divides `x`. A zero `y` makes Go panic. */
  function Mod(x: int, y: int): (b: bool)
    requires y != 0
    ensures b <==> x % y == 0
  {
    RemainderOfAbs(x, y);
    DividesNegation(x, Abs(y));
    GoRem(x, y) == 0
  }

  lemma {:induction false} MulAtLeast(a: int, y: int)
    requires a >= 1 && y > 0
    ensures a * y >= y
    decreases a
  {
    if a > 1 {
      MulAtLeast(a - 1, y);
      assert a * y == (a - 1) * y + y;
    }
  }

  lemma MulBounds(d: int, y: int)
    requires y > 0
    ensures d >= 1 ==> d * y >= y
    ensures d <= -1 ==> d * y <= -y
  {
    if d >= 1 {
      MulAtLeast(d, y);
    } else if d <= -1 {
      MulAtLeast(-d, y);
      assert (-d) * y == -(d * y);
    }
  }

  /** Euclidean remainders are unique: any decomposition with a remainder in [0, y) is the one `%` gives. */
  lemma UniqueRemainder(x: int, y: int, q: int, r: int)
    requires y > 0 && 0 <= r < y && x == q * y + r
    ensures x % y == r
  {
    var q', r' := x / y, x % y;
    assert x == q' * y + r';
    MulBounds(q' - q, y);
    assert (q' - q) * y == q' * y - q * y;
  }

  lemma RemainderOfAbs(x: int, y: int)
    requires y != 0
    ensures x % y == x % Abs(y)
  {
    if y < 0 {
      var q := x / y;
      assert x == q * y + x % y;
      assert x == (-q) * Abs(y) + x % y;
      UniqueRemainder(x, Abs(y), -q, x % y);
    }
  }

  lemma DividesNegation(x: int, y: int)
    requires y > 0
    ensures (-x) % y == 0 <==> x % y == 0
  {
    if x % y == 0 {
      UniqueRemainder(-x, y, -(x / y), 0);
    }
    if (-x) % y == 0 {
      UniqueRemainder(x, y, -((-x) / y), 0);
    }
  }

  /** `mod(x, y)` holds exactly when `x` is a multiple of `y`, and neither sign plays a part. */
  lemma ModIffDivides(x: int, y: int)
    requires y != 0
    ensures Mod(x, y) <==> x == (x / y) * y
    ensures Mod(x, y) == Mod(-x, y) == Mod(x, -y)
  {
    RemainderOfAbs(x, -y);
    RemainderOfAbs(x, y);
    DividesNegation(x, Abs(y));
  }

  /** Concrete remainders where Go's truncated `%` and the Euclidean one differ or agree. */
  lemma GoRemTruncates()
    ensures GoRem(-7, 2) == -1 && -7 % 2 == 1
    ensures GoRem(7, -2) == 1 && 7 % -2 == 1
    ensures GoRem(-7, -2) == -1 && -7 % -2 == 1
    ensures Mod(-6, 4) == false && Mod(-8, 4) && Mod(0, -3)
  {
  }
}
