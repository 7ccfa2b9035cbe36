/**
 * The reply parser of the `generate-dinner` handler
 * (api/api/generate-dinner.js, lines 97-137): the reply text is cut into
 * trimmed non-empty lines, from which the date line, up to three meal
 * bullets and an encouragement line are read; the trailing JSON block is
 * then checked in a fixed order.
 */
module Reply {
  import opened Wrappers
  import opened Text
  import opened JsonBlock

  /** A JSON value, as `JSON.parse` would return it (numbers kept as reals). */
  datatype JsonValue =
    | JNull
    | JBool(b: bool)
    | JNumber(n: real)
    | JString(s: string)
    | JArray(elems: seq<JsonValue>)
    | JObject(members: map<string, JsonValue>)

  /** `parsed.meals` is present and `Array.isArray` holds of it (an array is always truthy). */
  predicate HasMealsArray(v: JsonValue) {
    v.JObject? && "meals" in v.members && v.members["meals"].JArray?
  }

  /** `.filter(Boolean)` on strings: keeps the non-empty ones, in order. */
  function NonEmpty(xs: seq<string>): (r: seq<string>)
    ensures forall k :: 0 <= k < |r| ==> r[k] != "" && r[k] in xs
  {
    if |xs| == 0 then []
    else if xs[0] == "" then NonEmpty(xs[1..])
    else [xs[0]] + NonEmpty(xs[1..])
  }

  /** The filter works piece by piece: it distributes over concatenation ... */
  lemma {:induction false} NonEmptyAppend(xs: seq<string>, ys: seq<string>)
    ensures NonEmpty(xs + ys) == NonEmpty(xs) + NonEmpty(ys)
  {
    if |xs| > 0 {
      assert (xs + ys)[1..] == xs[1..] + ys;
      NonEmptyAppend(xs[1..], ys);
    } else {
      assert xs + ys == ys;
    }
  }

  /** ... and on one string keeps it exactly when it is non-empty. */
  lemma NonEmptySingle(x: string)
    ensures NonEmpty([x]) == if x == "" then [] else [x]
  {
    assert [x][1..] == [];
  }

  lemma {:induction false} NonEmptyKeepsNonEmpty(xs: seq<string>)
    requires forall k :: 0 <= k < |xs| ==> xs[k] != ""
    ensures NonEmpty(xs) == xs
  {
    if |xs| > 0 {
      NonEmptyKeepsNonEmpty(xs[1..]);
    }
  }

  /** `.map((l) => l.trim())`. */
  function TrimAll(xs: seq<string>): seq<string> {
    seq(|xs|, k requires 0 <= k < |xs| => Trim(xs[k]))
  }

  /** `aiText.split("\n").map((l) => l.trim()).filter(Boolean)`. */
  function Lines(text: string): seq<string> {
    NonEmpty(TrimAll(Split(text, '\n')))
  }

  /** A line as `lines` holds it: non-empty, its own trim, without a line break. */
  predicate IsCleanLine(l: string) {
    l != "" && Trim(l) == l && '\n' !in l
  }

  /** Every line is non-empty, is its own trim and holds no line break. */
  lemma LinesSpec(text: string)
    ensures forall k :: 0 <= k < |Lines(text)| ==> IsCleanLine(Lines(text)[k])
  {
    var pieces := Split(text, '\n');
    var xs := TrimAll(pieces);
    forall j | 0 <= j < |xs|
      ensures Trim(xs[j]) == xs[j] && '\n' !in xs[j]
    {
      TrimIdempotent(pieces[j]);
      TrimKeepsAbsence(pieces[j], '\n');
    }
    var ls := NonEmpty(xs);
    assert ls == Lines(text);
    forall k | 0 <= k < |ls|
      ensures IsCleanLine(ls[k])
    {
      assert ls[k] in xs;
    }
  }

  /** Reparsing the lines, joined back with newlines, gives the same lines. */
  lemma {:induction false} TrimAllKeepsTrimmed(ls: seq<string>)
    requires forall k :: 0 <= k < |ls| ==> Trim(ls[k]) == ls[k]
    ensures TrimAll(ls) == ls
  {
  }

  /** Clean lines joined by newlines read back as themselves. */
  lemma CleanLinesReparse(ls: seq<string>)
    requires forall k :: 0 <= k < |ls| ==> IsCleanLine(ls[k])
    ensures Lines(Join(ls, "\n")) == ls
  {
    if |ls| == 0 {
      assert Join(ls, "\n") == "";
      assert Split("", '\n') == [""];
      TrimStartKeeps("");
      TrimEndKeeps("");
      assert TrimAll([""]) == [""];
      assert NonEmpty([""]) == [];
    } else {
      forall k | 0 <= k < |ls|
        ensures '\n' !in ls[k] && Trim(ls[k]) == ls[k] && ls[k] != ""
      {
        assert IsCleanLine(ls[k]);
      }
      JoinSplit(ls, '\n');
      TrimAllKeepsTrimmed(ls);
      NonEmptyKeepsNonEmpty(ls);
    }
  }

  /** Reparsing the lines, joined back with newlines, gives the same lines. */
  lemma LinesReparse(text: string)
    ensures Lines(Join(Lines(text), "\n")) == Lines(text)
  {
    LinesSpec(text);
    CleanLinesReparse(Lines(text));
  }

  /** `lines[0] ?? ""`. */
  function DateLine(lines: seq<string>): string {
    if |lines| > 0 then lines[0] else ""
  }

  /** `l.startsWith("•") || l.startsWith("-") || l.startsWith("*")`. */
  predicate IsBullet(l: string) {
    |l| > 0 && (l[0] == '\U{2022}' || l[0] == '-' || l[0] == '*')
  }

  /** The bullet lines, in order. */
  function Bullets(lines: seq<string>): seq<string> {
    if |lines| == 0 then []
    else (if IsBullet(lines[0]) then [lines[0]] else []) + Bullets(lines[1..])
  }

  /** How many bullet lines there are. */
  function BulletCount(lines: seq<string>): nat {
    if |lines| == 0 then 0
    else (if IsBullet(lines[0]) then 1 else 0) + BulletCount(lines[1..])
  }

  /**
   * `l.replace(/^([•\-\*])\s*\/, "")`: a bullet line loses its one marker and
   * the whitespace after it; any other line is left alone.
   */
  function StripMarker(l: string): (r: string)
    ensures IsBullet(l) ==>
      |r| < |l| && r == l[|l| - |r|..] && AllSpace(l[1..|l| - |r|]) && (r == [] || !IsSpace(r[0]))
    ensures !IsBullet(l) ==> r == l
  {
    if IsBullet(l) then
      DropThenTrimStart(l);
      TrimStart(l[1..])
    else l
  }

  /** `.filter(isBullet).slice(0, 3).map(stripMarker)`. */
  function MealLines(lines: seq<string>): seq<string> {
    var b := Bullets(lines);
    var first := if |b| <= 3 then b else b[..3];
    seq(|first|, k requires 0 <= k < |first| => StripMarker(first[k]))
  }

  /** The line at `j` is a bullet with exactly `k` bullets before it. */
  ghost predicate KthBulletAt(lines: seq<string>, k: int, j: int) {
    0 <= j < |lines| && IsBullet(lines[j]) && BulletCount(lines[..j]) == k
  }

  lemma KthBulletShift(lines: seq<string>, k: int, j: int)
    requires |lines| > 0 && KthBulletAt(lines[1..], k, j)
    ensures KthBulletAt(lines, k + (if IsBullet(lines[0]) then 1 else 0), j + 1)
  {
    assert lines[..j + 1][1..] == lines[1..][..j];
  }

  lemma {:induction false} BulletsLength(lines: seq<string>)
    ensures |Bullets(lines)| == BulletCount(lines)
  {
    if |lines| > 0 {
      BulletsLength(lines[1..]);
    }
  }

  /** The k-th bullet is the line at some index j that is a bullet and has exactly k bullets before it. */
  lemma {:induction false} BulletAt(lines: seq<string>, k: int) returns (j: int)
    requires 0 <= k < |Bullets(lines)|
    ensures KthBulletAt(lines, k, j) && Bullets(lines)[k] == lines[j]
  {
    var rest := lines[1..];
    if IsBullet(lines[0]) && k == 0 {
      assert lines[..0] == [];
      j := 0;
    } else {
      var k' := if IsBullet(lines[0]) then k - 1 else k;
      assert Bullets(lines)[k] == Bullets(rest)[k'];
      var j' := BulletAt(rest, k');
      KthBulletShift(lines, k', j');
      j := j' + 1;
    }
  }

  /** Meal line `k` is the k-th bullet line with its marker stripped. */
  ghost predicate IsKthMeal(lines: seq<string>, k: int, meal: string) {
    exists j :: KthBulletAt(lines, k, j) && meal == StripMarker(lines[j])
  }

  /**
   * The meal lines are the first three bullet lines (fewer when there are
   * fewer), in order, each with its marker stripped.
   */
  lemma MealLinesSpec(lines: seq<string>)
    ensures |MealLines(lines)| == if BulletCount(lines) < 3 then BulletCount(lines) else 3
    ensures forall k :: 0 <= k < |MealLines(lines)| ==> IsKthMeal(lines, k, MealLines(lines)[k])
  {
    BulletsLength(lines);
    var b := Bullets(lines);
    forall k | 0 <= k < |MealLines(lines)|
      ensures IsKthMeal(lines, k, MealLines(lines)[k])
    {
      assert k < |b| && MealLines(lines)[k] == StripMarker(b[k]);
      var j := BulletAt(lines, k);
    }
  }

  /** `mealLines[k] ?? ""`. */
  function Meal(meals: seq<string>, k: nat): string {
    if k < |meals| then meals[k] else ""
  }

  /** A candidate encouragement: not the date line, and not starting with a bullet marker or a brace. */
  predicate IsPlain(l: string, dateLine: string) {
    l != dateLine && !IsBullet(l) && !StartsWith(l, "{") && !StartsWith(l, "}")
  }

  /** `lines.find(isPlain)`, as an index. */
  function FirstPlain(lines: seq<string>, dateLine: string): (r: Option<nat>)
    ensures r.None? <==> forall j :: 0 <= j < |lines| ==> !IsPlain(lines[j], dateLine)
    ensures r.Some? ==>
      r.value < |lines| && IsPlain(lines[r.value], dateLine) &&
      forall j :: 0 <= j < r.value ==> !IsPlain(lines[j], dateLine)
  {
    if |lines| == 0 then None
    else if IsPlain(lines[0], dateLine) then Some(0)
    else
      match FirstPlain(lines[1..], dateLine)
      case None => None
      case Some(i) => Some(i + 1)
  }

  /** `lines.find(isPlain) ?? ""`. */
  function Encouragement(lines: seq<string>, dateLine: string): string {
    match FirstPlain(lines, dateLine)
    case Some(j) => lines[j]
    case None => ""
  }

  /** Over non-empty lines, the encouragement is "" exactly when no line is plain, and is otherwise the first plain one. */
  lemma EncouragementSpec(lines: seq<string>, dateLine: string)
    requires forall k :: 0 <= k < |lines| ==> lines[k] != ""
    ensures var e := Encouragement(lines, dateLine);
      (e == "" <==> forall j :: 0 <= j < |lines| ==> !IsPlain(lines[j], dateLine)) &&
      (e != "" ==>
        exists j :: 0 <= j < |lines| && lines[j] == e && IsPlain(e, dateLine) &&
          (forall i :: 0 <= i < j ==> !IsPlain(lines[i], dateLine)))
  {
  }

  /** The fields the handler takes from a reply that passed validation. */
  datatype Plan = Plan(
    dateLine: string, meal1: string, meal2: string, meal3: string,
    encouragement: string, rawJson: string)

  /** The three failures of reply validation, in the order they are checked. */
  datatype ReplyError = MissingJsonBlock | InvalidJson | MissingMealsArray {
    function Message(): string {
      match this
      case MissingJsonBlock => "AI output missing JSON block at the end."
      case InvalidJson => "AI output JSON is invalid (parse failed)."
      case MissingMealsArray => "AI output JSON missing meals array."
    }
  }

  /** Each failure has its own message. */
  lemma MessagesDistinct(a: ReplyError, b: ReplyError)
    requires a != b
    ensures a.Message() != b.Message()
  {
  }

  /** Lines 97-109 and 128-137: the text fields read from the lines of the reply. */
  datatype TextFields = TextFields(dateLine: string, meals: seq<string>, encouragement: string)

  function ReadFields(aiText: string): TextFields {
    var lines := Lines(aiText);
    var dateLine := DateLine(lines);
    TextFields(dateLine, MealLines(lines), Encouragement(lines, dateLine))
  }

  /**
   * Lines 111-125: the block, then `JSON.parse` (the oracle `parse`, None
   * for a thrown SyntaxError), then the `meals` check, in that order.
   */
  function CheckJson(aiText: string, parse: string -> Option<JsonValue>): Result<string, ReplyError> {
    match ExtractJsonBlock(aiText)
    case None => Failure(MissingJsonBlock)
    case Some(raw) =>
      match parse(raw)
      case None => Failure(InvalidJson)
      case Some(parsed) => if HasMealsArray(parsed) then Success(raw) else Failure(MissingMealsArray)
  }

  /** Lines 97-137: the reply becomes a plan, or the first validation failure. */
  function ParseReply(aiText: string, parse: string -> Option<JsonValue>): Result<Plan, ReplyError> {
    match CheckJson(aiText, parse)
    case Failure(e) => Failure(e)
    case Success(raw) =>
      var fields := ReadFields(aiText);
      Success(Plan(fields.dateLine, Meal(fields.meals, 0), Meal(fields.meals, 1), Meal(fields.meals, 2),
                   fields.encouragement, raw))
  }

  /**
   * First check: a reply the block pattern cannot match anywhere fails as a
   * missing block, whatever the parser would say, and only such a reply does.
   */
  lemma MissingBlockFirst(aiText: string, parse: string -> Option<JsonValue>)
    ensures (forall i :: 0 <= i < |aiText| ==> !MatchesAt(aiText, i)) <==>
      ParseReply(aiText, parse) == Failure(MissingJsonBlock)
  {
    ExtractJsonBlockIsRegexMatch(aiText);
  }

  /** Second check: invalid JSON exactly when the leftmost match is rejected by the parser. */
  lemma InvalidJsonSecond(aiText: string, parse: string -> Option<JsonValue>)
    ensures ParseReply(aiText, parse) == Failure(InvalidJson) <==>
      exists i :: MatchesAt(aiText, i) && parse(aiText[i..]).None? &&
        forall h :: 0 <= h < i ==> !MatchesAt(aiText, h)
  {
    var e := ExtractJsonBlock(aiText);
    assert ParseReply(aiText, parse) == Failure(InvalidJson) <==> e.Some? && parse(e.value).None?;
    if e.Some? {
      BlockIsLeftmostMatch(aiText);
      var i := |aiText| - |e.value|;
      assert MatchesAt(aiText, i) && e.value == aiText[i..];
    }
    if i :| MatchesAt(aiText, i) && parse(aiText[i..]).None? && forall h :: 0 <= h < i ==> !MatchesAt(aiText, h) {
      LeftmostMatchIsBlock(aiText, i);
    }
  }

  /**
   * Last check: a block the parser accepts fails only for lacking a `meals`
   * array; a reply that passes carries the block text.
   */
  lemma MealsArrayLast(aiText: string, parse: string -> Option<JsonValue>)
    ensures ParseReply(aiText, parse) == Failure(MissingMealsArray) <==>
      ExtractJsonBlock(aiText).Some? && parse(ExtractJsonBlock(aiText).value).Some? &&
      !HasMealsArray(parse(ExtractJsonBlock(aiText).value).value)
    ensures ParseReply(aiText, parse).Success? <==>
      ExtractJsonBlock(aiText).Some? && parse(ExtractJsonBlock(aiText).value).Some? &&
      HasMealsArray(parse(ExtractJsonBlock(aiText).value).value)
    ensures ParseReply(aiText, parse).Success? ==>
      var plan := ParseReply(aiText, parse).value;
      plan.rawJson == ExtractJsonBlock(aiText).value && StartsWith(plan.rawJson, "{") &&
      EndsWith(TrimEnd(plan.rawJson), "}")
  {
  }

  /** The text fields of a successful parse are the date line, the first three meal lines and the encouragement. */
  lemma PlanFields(aiText: string, parse: string -> Option<JsonValue>)
    requires ParseReply(aiText, parse).Success?
    ensures var plan := ParseReply(aiText, parse).value;
      var lines := Lines(aiText);
      plan.dateLine == DateLine(lines) && 
      (|lines| > 0 ==> plan.dateLine == lines[0]) &&
      plan.meal1 == Meal(MealLines(lines), 0) &&
      plan.meal2 == Meal(MealLines(lines), 1) &&
      plan.meal3 == Meal(MealLines(lines), 2) &&
      plan.encouragement == Encouragement(lines, DateLine(lines)) &&
      (BulletCount(lines) == 0 ==> plan.meal1 == "" && plan.meal2 == "" && plan.meal3 == "")
  {
    MealLinesSpec(Lines(aiText));
  }
}
