/**
 * The `generate-dinner` request handler of api/api/generate-dinner.js
 * (lines 40-178): method and stock checks, formatting, the language-model
 * call, reply validation and the append-only run log in the store.
 * The store, the model backend, `JSON.parse` and the clock are parameters.
 */
module Handler {
  import opened Wrappers
  import opened Text
  import opened Inventory
  import opened JsonBlock
  import opened Reply

  datatype Status = OK | ERROR

  /** A page of the run database: `Run` title, `Status`, and the text properties (None when not set). */
  datatype Run = Run(
    title: string, status: Status,
    dateLine: Option<string>, meal1: Option<string>, meal2: Option<string>, meal3: Option<string>,
    encouragement: string, rawJson: Option<string>)

  /** What `notion.databases.query` on the inventory produces: the in-stock pages, or a thrown error. */
  datatype QueryOutcome = QueryFailed(message: string) | Queried(results: seq<Page>)

  /** What the model backend call produces: the first choice's message content (None when absent), or a thrown error. */
  datatype LlmOutcome = LlmFailed(message: string) | Completed(content: Option<string>)

  /** What one `notion.pages.create` call on the run database does. */
  datatype WriteOutcome = Written | WriteFailed(message: string)

  datatype Body =
    | PostOnly
    | NoItemsInStock
    | Planned(dateLine: string, meals: seq<string>, encouragement: string)
    | Failed(error: string)

  datatype Response = Response(code: int, body: Body)

  /** How far one request gets: rejected before any work, done, or an error thrown inside the `try`. */
  datatype Verdict = NotPost | NoItems | Generated(plan: Plan) | Threw(message: string)

  /** The longest `Raw JSON` text that is stored. */
  const RawJsonLimit: nat := 2000

  /** `s.replace(a, b)` with one-character strings: only the first occurrence is replaced. */
  function ReplaceFirst(s: string, a: char, b: char): (r: string)
    ensures |r| == |s|
    ensures a !in s ==> r == s
    ensures a in s ==> exists i :: 0 <= i < |s| && s[i] == a && a !in s[..i] && r == s[i := b]
  {
    match FirstIndex(s, a)
    case None => s
    case Some(i) => s[i := b]
  }

  /** `iso.slice(0, 16).replace("T", " ")`. */
  function Stamp(iso: string): string {
    ReplaceFirst(iso[..if |iso| < 16 then |iso| else 16], 'T', ' ')
  }

  /** For an ISO-8601 timestamp `YYYY-MM-DDTHH:MM...` the stamp is `YYYY-MM-DD HH:MM`. */
  lemma StampOfIsoTimestamp(iso: string)
    requires |iso| >= 16 && iso[10] == 'T' && 'T' !in iso[..10]
    ensures Stamp(iso) == iso[..10] + " " + iso[11..16]
  {
    var head := iso[..16];
    assert head[..10] == iso[..10];
    assert 'T' in head by { assert head[10] == 'T'; }
    var i :| 0 <= i < |head| && head[i] == 'T' && 'T' !in head[..i] && Stamp(iso) == head[i := ' '];
    assert Stamp(iso) == iso[..10] + " " + iso[11..16];
  }

  /** `Run – <stamp>` (an en dash). */
  function RunTitle(iso: string): string {
    "Run \U{2013} " + Stamp(iso)
  }

  /** The run written on success: every field set, `Raw JSON` cut to `RawJsonLimit` characters. */
  function OkRun(iso: string, plan: Plan): (r: Run)
    ensures r.status == OK && r.title == "Run \U{2013} " + Stamp(iso)
    ensures r.rawJson.Some? && |r.rawJson.value| <= RawJsonLimit && StartsWith(plan.rawJson, r.rawJson.value)
    ensures |plan.rawJson| <= RawJsonLimit ==> r.rawJson == Some(plan.rawJson)
    ensures |plan.rawJson| > RawJsonLimit ==> |r.rawJson.value| == RawJsonLimit
    ensures r.dateLine == Some(plan.dateLine) && r.encouragement == plan.encouragement
    ensures r.meal1 == Some(plan.meal1) && r.meal2 == Some(plan.meal2) && r.meal3 == Some(plan.meal3)
  {
    var raw := plan.rawJson;
    assert raw[..|raw|] == raw;
    Run(RunTitle(iso), OK, Some(plan.dateLine), Some(plan.meal1), Some(plan.meal2), Some(plan.meal3),
        plan.encouragement, Some(raw[..if |raw| < RawJsonLimit then |raw| else RawJsonLimit]))
  }

  /** The run written on failure: title marked `[ERROR]`, the message wrapped, nothing else set. */
  function ErrorRun(iso: string, message: string): (r: Run)
    ensures r.status == ERROR && r.title == "Run \U{2013} " + Stamp(iso) + " [ERROR]"
    ensures StartsWith(r.encouragement, "Oops \U{2014} ") && r.encouragement[|"Oops \U{2014} "|..] == message
    ensures r.dateLine.None? && r.meal1.None? && r.meal2.None? && r.meal3.None? && r.rawJson.None?
  {
    var title := RunTitle(iso) + " [ERROR]";
    assert title[..|"Run \U{2013} "|] == "Run \U{2013} ";
    Run(title, ERROR, None, None, None, None, "Oops \U{2014} " + message, None)
  }

  /** The reply text: the message content, or "" when there is none. */
  function AiText(content: Option<string>): string {
    content.GetOr("")
  }

  /**
   * How far a request gets, in the order the handler checks: the method,
   * the inventory query, the empty inventory, the model call, the reply
   * checks, and the write of the OK run.
   */
  function Decide(httpMethod: string, query: QueryOutcome, llm: string -> LlmOutcome,
                  parse: string -> Option<JsonValue>, okWrite: WriteOutcome): Verdict
  {
    if httpMethod != "POST" then NotPost
    else
      match query
      case QueryFailed(m) => Threw(m)
      case Queried(results) =>
        if |results| == 0 then NoItems
        else
          match llm(InventoryText(results))
          case LlmFailed(m) => Threw(m)
          case Completed(content) =>
            match ParseReply(AiText(content), parse)
            case Failure(e) => Threw(e.Message())
            case Success(plan) =>
              match okWrite
              case WriteFailed(m) => Threw(m)
              case Written => Generated(plan)
  }

  /** The runs a request appends, given its verdict and what the store does with the ERROR run. */
  function RunsWritten(v: Verdict, okIso: string, errIso: string, errWrite: WriteOutcome): (r: seq<Run>)
    ensures |r| <= 1
    ensures (v.NotPost? || v.NoItems?) ==> r == []
    ensures v.Generated? ==> r == [OkRun(okIso, v.plan)]
    ensures v.Threw? ==> (r != [] <==> errWrite.Written?)
    ensures v.Threw? && r != [] ==> r[0] == ErrorRun(errIso, v.message)
  {
    match v
    case Generated(plan) => [OkRun(okIso, plan)]
    case Threw(m) => if errWrite.Written? then [ErrorRun(errIso, m)] else []
    case _ => []
  }

  /** The HTTP reply for a verdict; a thrown error is reported with its own message. */
  function ResponseFor(v: Verdict): (r: Response)
    ensures r.code == 405 <==> v.NotPost?
    ensures r.code == 400 <==> v.NoItems?
    ensures r.code == 200 <==> v.Generated?
    ensures r.code == 500 <==> v.Threw?
    ensures v.Threw? ==> r.body == Failed(v.message)
    ensures v.Generated? ==>
      r.body == Planned(v.plan.dateLine, [v.plan.meal1, v.plan.meal2, v.plan.meal3], v.plan.encouragement)
  {
    match v
    case NotPost => Response(405, PostOnly)
    case NoItems => Response(400, NoItemsInStock)
    case Generated(plan) => Response(200, Planned(plan.dateLine, [plan.meal1, plan.meal2, plan.meal3], plan.encouragement))
    case Threw(m) => Response(500, Failed(m))
  }

  /** A request that is not a POST, or finds nothing in stock, writes no run. */
  lemma RejectedRequestsWriteNothing(httpMethod: string, query: QueryOutcome, llm: string -> LlmOutcome,
                                     parse: string -> Option<JsonValue>, okWrite: WriteOutcome,
                                     okIso: string, errIso: string, errWrite: WriteOutcome)
    requires httpMethod != "POST" || query == Queried([])
    ensures RunsWritten(Decide(httpMethod, query, llm, parse, okWrite), okIso, errIso, errWrite) == []
    ensures ResponseFor(Decide(httpMethod, query, llm, parse, okWrite)).code in {400, 405}
  {
  }

  /**
   * A reply that fails validation is reported with that failure's message,
   * whether or not the ERROR run can be written.
   */
  lemma ReplyFailureReported(httpMethod: string, results: seq<Page>, llm: string -> LlmOutcome,
                             parse: string -> Option<JsonValue>, okWrite: WriteOutcome, content: Option<string>)
    requires httpMethod == "POST" && |results| > 0 && llm(InventoryText(results)) == Completed(content)
    requires ParseReply(AiText(content), parse).Failure?
    ensures Decide(httpMethod, Queried(results), llm, parse, okWrite) ==
      Threw(ParseReply(AiText(content), parse).error.Message())
    ensures ResponseFor(Decide(httpMethod, Queried(results), llm, parse, okWrite)) ==
      Response(500, Failed(ParseReply(AiText(content), parse).error.Message()))
  {
  }

  /**
   * The run database: `runs` lists its pages in creation order. Pages are
   * only ever added (`notion.pages.create`), never changed or removed.
   */
  class RunLog {
    var runs: seq<Run>

    constructor (existing: seq<Run>)
      ensures runs == existing
    {
      runs := existing;
    }

    /** `notion.pages.create`: `outcome` says whether the store accepts the page; a failure throws its message. */
    method Create(run: Run, outcome: WriteOutcome) returns (failure: Option<string>)
      modifies this
      ensures outcome.Written? ==> failure.None? && runs == old(runs) + [run]
      ensures outcome.WriteFailed? ==> failure == Some(outcome.message) && runs == old(runs)
    {
      if outcome.Written? {
        runs := runs + [run];
        failure := None;
      } else {
        failure := Some(outcome.message);
      }
    }
  }

  /**
   * The handler. `query`, `llm` (the reply for the inventory text, which is
   * all the prompt depends on), `parse` (`JSON.parse`), the two clock
   * readings and the two store writes are supplied by the caller.
   */
  method GenerateDinner(log: RunLog, httpMethod: string, query: QueryOutcome, llm: string -> LlmOutcome,
                        parse: string -> Option<JsonValue>, okIso: string, errIso: string,
                        okWrite: WriteOutcome, errWrite: WriteOutcome)
    returns (resp: Response)
    modifies log
    ensures var v := Decide(httpMethod, query, llm, parse, okWrite);
      resp == ResponseFor(v) && log.runs == old(log.runs) + RunsWritten(v, okIso, errIso, errWrite)
    ensures |old(log.runs)| <= |log.runs| <= |old(log.runs)| + 1
    ensures log.runs[..|old(log.runs)|] == old(log.runs)
  {
    if httpMethod != "POST" {
      return Response(405, PostOnly);
    }
    var thrown: string;
    match query {
      case QueryFailed(m) =>
        thrown := m;
      case Queried(results) =>
        if |results| == 0 {
          return Response(400, NoItemsInStock);
        }
        var inventoryText := FormatInventory(results);
        match llm(inventoryText) {
          case LlmFailed(m) =>
            thrown := m;
          case Completed(content) =>
            match ParseReply(AiText(content), parse) {
              case Failure(e) =>
                thrown := e.Message();
              case Success(plan) =>
                var failure := log.Create(OkRun(okIso, plan), okWrite);
                if failure.None? {
                  return Response(200, Planned(plan.dateLine, [plan.meal1, plan.meal2, plan.meal3], plan.encouragement));
                }
                thrown := failure.value;
            }
        }
    }
    // catch (e): best-effort ERROR run; a failure to write it is swallowed
    var ignored := log.Create(ErrorRun(errIso, thrown), errWrite);
    resp := Response(500, Failed(thrown));
  }
}
