/**
 * `formatInventory` in api/api/generate-dinner.js: groups the in-stock
 * inventory pages into four fixed buckets and renders one line per
 * bucket, in a fixed order, for the prompt sent to the language model.
 */
module Inventory {
  import opened Wrappers
  import opened Text

  /** The `unique_id` value of a page's `ID` property; either part may be absent. */
  datatype UniqueId = UniqueId(prefix: Option<string>, number: Option<int>)

  /**
   * The properties `formatInventory` reads from one page: the plain text of
   * the first `Item` title segment ("" when absent), the `Category` select
   * name (None when unset), the plain text of the first `Note` segment (""
   * when absent) and the `ID` unique id (None when absent).
   */
  datatype Page = Page(title: string, category: Option<string>, note: string, uid: Option<UniqueId>)

  /** The buckets, in display order. */
  const Categories: seq<string> := ["Limited shelf life", "Fridge", "Freezer", "Pantry"]

  /** The keys of the initial `grouped` dictionary. */
  const CategorySet: set<string> := {"Limited shelf life", "Fridge", "Freezer", "Pantry"}

  /** An unset category defaults to `Pantry`. */
  function CategoryOf(p: Page): string {
    p.category.GetOr("Pantry")
  }

  /** The rendered id: present only when both the prefix and the number are truthy (a number 0 is not). */
  function IdOf(p: Page): Option<string> {
    match p.uid
    case Some(UniqueId(Some(prefix), Some(n))) =>
      if prefix != "" && n != 0 then Some(prefix + IntToString(n)) else None
    case _ => None
  }

  /** The id exists exactly when prefix and a non-zero number do, and it reads back as prefix then number. */
  lemma IdOfSpec(p: Page)
    ensures IdOf(p).Some? <==>
      p.uid.Some? && p.uid.value.prefix.Some? && p.uid.value.prefix.value != "" &&
      p.uid.value.number.Some? && p.uid.value.number.value != 0
    ensures IdOf(p).Some? && p.uid.value.number.value > 0 ==>
      var prefix := p.uid.value.prefix.value;
      var id := IdOf(p).value;
      StartsWith(id, prefix) && IsDigits(id[|prefix|..]) &&
      DigitsValue(id[|prefix|..]) == p.uid.value.number.value
  {
    if IdOf(p).Some? && p.uid.value.number.value > 0 {
      var prefix := p.uid.value.prefix.value;
      var n: nat := p.uid.value.number.value;
      assert IdOf(p).value[|prefix|..] == NatToString(n);
      NatToStringRoundTrip(n);
    }
  }

  /** The entry for one page: `[id] title (note)`, or `[id] title` without a note; none without title or id. */
  function Entry(p: Page): Option<string> {
    match IdOf(p)
    case None => None
    case Some(id) =>
      if p.title == "" then None
      else if p.note != "" then Some("[" + id + "] " + p.title + " (" + p.note + ")")
      else Some("[" + id + "] " + p.title)
  }

  /** A page is rendered exactly when its title is non-empty and it has an id. */
  lemma EntrySpec(p: Page)
    ensures Entry(p).Some? <==> p.title != "" && IdOf(p).Some?
    ensures Entry(p).Some? ==>
      var head := "[" + IdOf(p).value + "] " + p.title;
      StartsWith(Entry(p).value, head) &&
      (p.note == "" ==> Entry(p).value == head) &&
      (p.note != "" ==> Entry(p).value == head + " (" + p.note + ")")
  {
  }

  /** The entries of category `c`, in input order. */
  function Bucket(ps: seq<Page>, c: string): seq<string> {
    if |ps| == 0 then []
    else
      var p := ps[|ps| - 1];
      Bucket(ps[..|ps| - 1], c) + (if Entry(p).Some? && CategoryOf(p) == c then [Entry(p).value] else [])
  }

  /** Concatenating inputs concatenates buckets: entries keep input order. */
  lemma {:induction false} BucketAppend(xs: seq<Page>, ys: seq<Page>, c: string)
    ensures Bucket(xs + ys, c) == Bucket(xs, c) + Bucket(ys, c)
  {
    if |ys| == 0 {
      assert xs + ys == xs;
    } else {
      var init := ys[..|ys| - 1];
      assert (xs + ys)[..|xs + ys| - 1] == xs + init;
      BucketAppend(xs, init, c);
    }
  }

  /** An entry is in bucket `c` exactly when some page renders to it and has category `c`. */
  lemma {:induction false} BucketMembers(ps: seq<Page>, c: string, e: string)
    ensures e in Bucket(ps, c) <==>
      exists j :: 0 <= j < |ps| && Entry(ps[j]) == Some(e) && CategoryOf(ps[j]) == c
  {
    if |ps| > 0 {
      var init := ps[..|ps| - 1];
      BucketMembers(init, c, e);
      if e in Bucket(ps, c) && e !in Bucket(init, c) {
        assert Entry(ps[|ps| - 1]) == Some(e);
      }
      if j :| 0 <= j < |ps| && Entry(ps[j]) == Some(e) && CategoryOf(ps[j]) == c {
        if j < |ps| - 1 {
          assert init[j] == ps[j];
        }
      }
    }
  }

  /** One bucket's line: `Category: entry, entry, ...` (just `Category: ` when empty). */
  function Line(c: string, entries: seq<string>): string {
    c + ": " + Join(entries, ", ")
  }

  /** The formatted inventory: the four bucket lines in display order, joined by newlines. */
  function InventoryText(ps: seq<Page>): string {
    Join(seq(4, k requires 0 <= k < 4 => Line(Categories[k], Bucket(ps, Categories[k]))), "\n")
  }

  /** Renders a `grouped` dictionary in display order (a missing key counts as an empty bucket). */
  function Render(grouped: map<string, seq<string>>): string {
    Join(seq(4, k requires 0 <= k < 4 =>
      Line(Categories[k], if Categories[k] in grouped then grouped[Categories[k]] else [])), "\n")
  }

  lemma JoinFour(a: string, b: string, c: string, d: string, sep: string)
    ensures Join([a, b, c, d], sep) == a + sep + b + sep + c + sep + d
  {
    assert [a, b, c, d][1..] == [b, c, d];
    assert [b, c, d][1..] == [c, d];
    assert [c, d][1..] == [d];
    assert Join([c, d], sep) == c + sep + d;
    assert Join([b, c, d], sep) == b + sep + (c + sep + d);
  }

  /** Whatever the input, the text is the four labelled lines in the fixed order. */
  lemma InventoryTextShape(ps: seq<Page>)
    ensures InventoryText(ps) ==
      Line("Limited shelf life", Bucket(ps, "Limited shelf life")) + "\n" +
      Line("Fridge", Bucket(ps, "Fridge")) + "\n" +
      Line("Freezer", Bucket(ps, "Freezer")) + "\n" +
      Line("Pantry", Bucket(ps, "Pantry"))
  {
    var ls := seq(4, k requires 0 <= k < 4 => Line(Categories[k], Bucket(ps, Categories[k])));
    assert ls == [ls[0], ls[1], ls[2], ls[3]];
    JoinFour(ls[0], ls[1], ls[2], ls[3], "\n");
  }

  /** Inputs with the same four buckets format identically. */
  lemma SameBuckets(xs: seq<Page>, ys: seq<Page>)
    requires forall k :: 0 <= k < 4 ==> Bucket(xs, Categories[k]) == Bucket(ys, Categories[k])
    ensures InventoryText(xs) == InventoryText(ys)
  {
    assert seq(4, k requires 0 <= k < 4 => Line(Categories[k], Bucket(xs, Categories[k]))) ==
      seq(4, k requires 0 <= k < 4 => Line(Categories[k], Bucket(ys, Categories[k])));
  }

  /** No line break in any rendered field of a page. */
  predicate NoLineBreaks(p: Page) {
    '\n' !in p.title && '\n' !in p.note &&
    (p.uid.Some? && p.uid.value.prefix.Some? ==> '\n' !in p.uid.value.prefix.value)
  }

  lemma {:induction false} BucketNoLineBreaks(ps: seq<Page>, c: string)
    requires forall j :: 0 <= j < |ps| ==> NoLineBreaks(ps[j])
    ensures forall k :: 0 <= k < |Bucket(ps, c)| ==> '\n' !in Bucket(ps, c)[k]
  {
    if |ps| > 0 {
      var init := ps[..|ps| - 1];
      var p := ps[|ps| - 1];
      assert forall j :: 0 <= j < |init| ==> init[j] == ps[j];
      BucketNoLineBreaks(init, c);
      EntryNoLineBreaks(p);
      var extra := if Entry(p).Some? && CategoryOf(p) == c then [Entry(p).value] else [];
      assert Bucket(ps, c) == Bucket(init, c) + extra;
      forall k | 0 <= k < |Bucket(ps, c)|
        ensures '\n' !in Bucket(ps, c)[k]
      {
        if k >= |Bucket(init, c)| {
          assert Bucket(ps, c)[k] == Entry(p).value;
        } else {
          assert Bucket(ps, c)[k] == Bucket(init, c)[k];
        }
      }
    }
  }

  lemma EntryNoLineBreaks(p: Page)
    requires NoLineBreaks(p)
    ensures Entry(p).Some? ==> '\n' !in Entry(p).value
  {
    if Entry(p).Some? {
      var id := IdOf(p).value;
      var n := p.uid.value.number.value;
      assert id == p.uid.value.prefix.value + IntToString(n);
      assert '\n' !in id;
      assert '\n' !in "[" + id + "] " + p.title;
    }
  }

  /**
   * When no title, note or id prefix holds a line break, the text splits
   * on newlines into exactly four lines, each starting with its label.
   */
  lemma FourLines(ps: seq<Page>)
    requires forall j :: 0 <= j < |ps| ==> NoLineBreaks(ps[j])
    ensures |Split(InventoryText(ps), '\n')| == 4
    ensures forall k :: 0 <= k < 4 ==>
      Split(InventoryText(ps), '\n')[k] == Line(Categories[k], Bucket(ps, Categories[k])) &&
      StartsWith(Split(InventoryText(ps), '\n')[k], Categories[k] + ": ")
  {
    var ls := seq(4, k requires 0 <= k < 4 => Line(Categories[k], Bucket(ps, Categories[k])));
    forall k | 0 <= k < 4
      ensures '\n' !in ls[k]
    {
      BucketNoLineBreaks(ps, Categories[k]);
      JoinAvoids(Bucket(ps, Categories[k]), ", ", '\n');
    }
    JoinSplit(ls, '\n');
  }

  /** A page without title or id leaves the text unchanged. */
  lemma InvalidPageDropped(ps: seq<Page>, p: Page)
    requires p.title == "" || IdOf(p).None?
    ensures InventoryText(ps + [p]) == InventoryText(ps)
  {
    forall k | 0 <= k < 4 ensures Bucket(ps + [p], Categories[k]) == Bucket(ps, Categories[k]) {
      assert (ps + [p])[..|ps|] == ps;
    }
    SameBuckets(ps + [p], ps);
  }

  /** A page whose category is none of the four buckets is silently dropped. */
  lemma UnknownCategoryDropped(ps: seq<Page>, p: Page)
    requires CategoryOf(p) !in CategorySet
    ensures InventoryText(ps + [p]) == InventoryText(ps)
  {
    forall k | 0 <= k < 4 ensures Bucket(ps + [p], Categories[k]) == Bucket(ps, Categories[k]) {
      assert (ps + [p])[..|ps|] == ps;
    }
    SameBuckets(ps + [p], ps);
  }

  /** A renderable page with a known category is appended to its own bucket and to no other. */
  lemma KnownCategoryAppended(ps: seq<Page>, p: Page, c: string)
    requires Entry(p).Some? && CategoryOf(p) in CategorySet
    ensures Bucket(ps + [p], c) ==
      if c == CategoryOf(p) then Bucket(ps, c) + [Entry(p).value] else Bucket(ps, c)
  {
    assert (ps + [p])[..|ps|] == ps;
  }

  /** `formatInventory`: the loop pushes each rendered entry into its bucket, then the buckets are rendered. */
  method FormatInventory(results: seq<Page>) returns (text: string)
    ensures text == InventoryText(results)
  {
    var grouped: map<string, seq<string>> :=
      map["Limited shelf life" := [], "Fridge" := [], "Freezer" := [], "Pantry" := []];
    for i := 0 to |results|
      invariant grouped.Keys == CategorySet
      invariant forall c :: c in grouped ==> grouped[c] == Bucket(results[..i], c)
    {
      var page := results[i];
      assert results[..i + 1][..i] == results[..i];
      match Entry(page) {
        case None =>
        case Some(entry) =>
          var category := CategoryOf(page);
          if category in grouped {
            grouped := grouped[category := grouped[category] + [entry]];
          }
      }
    }
    assert results[..|results|] == results;
    text := Render(grouped);
    assert seq(4, k requires 0 <= k < 4 =>
        Line(Categories[k], if Categories[k] in grouped then grouped[Categories[k]] else [])) ==
      seq(4, k requires 0 <= k < 4 => Line(Categories[k], Bucket(results, Categories[k])));
  }

  /** The names a plain object literal inherits from `Object.prototype`. */
  const ObjectPrototypeKeys: set<string> := {
    "constructor", "hasOwnProperty", "isPrototypeOf", "propertyIsEnumerable",
    "toLocaleString", "toString", "valueOf", "__proto__",
    "__defineGetter__", "__defineSetter__", "__lookupGetter__", "__lookupSetter__"
  }

  /**
   * One iteration of the grouping loop as written: `grouped[category]` also
   * finds inherited members, which are truthy but have no `push`, so such a
   * category throws a TypeError (None) instead of being skipped.
   */
  function StepAsWritten(g: map<string, seq<string>>, p: Page): Option<map<string, seq<string>>> {
    match Entry(p)
    case None => Some(g)
    case Some(e) =>
      var c := CategoryOf(p);
      if c in g then Some(g[c := g[c] + [e]])
      else if c in ObjectPrototypeKeys then None
      else Some(g)
  }

  /** The grouping loop as written; None stands for the thrown TypeError. */
  function GroupAsWritten(ps: seq<Page>): Option<map<string, seq<string>>> {
    if |ps| == 0 then Some(map["Limited shelf life" := [], "Fridge" := [], "Freezer" := [], "Pantry" := []])
    else
      match GroupAsWritten(ps[..|ps| - 1])
      case None => None
      case Some(g) => StepAsWritten(g, ps[|ps| - 1])
  }

  /** `formatInventory` as written; None stands for the thrown TypeError. */
  function FormatInventoryAsWritten(ps: seq<Page>): Option<string> {
    match GroupAsWritten(ps)
    case None => None
    case Some(g) => Some(Render(g))
  }

  /** A renderable page whose category is an inherited member's name: the code as written throws on it. */
  predicate Throws(p: Page) {
    Entry(p).Some? && CategoryOf(p) in ObjectPrototypeKeys
  }

  lemma PrototypeKeysAreNotBuckets(c: string)
    requires c in CategorySet
    ensures c !in ObjectPrototypeKeys
  {
  }

  lemma StepAsWrittenSpec(g: map<string, seq<string>>, p: Page)
    requires g.Keys == CategorySet
    ensures StepAsWritten(g, p).None? <==> Throws(p)
    ensures StepAsWritten(g, p).Some? ==>
      StepAsWritten(g, p).value.Keys == CategorySet &&
      forall c :: c in CategorySet ==> (StepAsWritten(g, p).value[c] ==
        g[c] + (if Entry(p).Some? && CategoryOf(p) == c then [Entry(p).value] else []))
  {
    if CategoryOf(p) in g {
      PrototypeKeysAreNotBuckets(CategoryOf(p));
    }
  }

  /** Some page of `ps` makes the code as written throw. */
  ghost predicate AnyThrows(ps: seq<Page>) {
    exists j :: 0 <= j < |ps| && Throws(ps[j])
  }

  lemma AnyThrowsSnoc(ps: seq<Page>)
    requires |ps| > 0
    ensures AnyThrows(ps) <==> AnyThrows(ps[..|ps| - 1]) || Throws(ps[|ps| - 1])
  {
    var init := ps[..|ps| - 1];
    if j :| 0 <= j < |ps| && Throws(ps[j]) {
      if j < |init| {
        assert Throws(init[j]);
      }
    }
    if j :| 0 <= j < |init| && Throws(init[j]) {
      assert Throws(ps[j]);
    }
  }

  /** As written, the loop throws exactly when some page `Throws`; otherwise it builds the buckets. */
  lemma {:induction false} GroupAsWrittenSpec(ps: seq<Page>)
    ensures GroupAsWritten(ps).None? <==> AnyThrows(ps)
    ensures GroupAsWritten(ps).Some? ==>
      GroupAsWritten(ps).value.Keys == CategorySet &&
      forall c :: c in CategorySet ==> GroupAsWritten(ps).value[c] == Bucket(ps, c)
  {
    if |ps| > 0 {
      var init := ps[..|ps| - 1];
      var p := ps[|ps| - 1];
      GroupAsWrittenSpec(init);
      AnyThrowsSnoc(ps);
      if GroupAsWritten(init).Some? {
        StepAsWrittenSpec(GroupAsWritten(init).value, p);
      }
    }
  }

  /** Off those names the code as written agrees with the model. */
  lemma AsWrittenAgrees(ps: seq<Page>)
    requires forall j :: 0 <= j < |ps| && Entry(ps[j]).Some? ==> CategoryOf(ps[j]) !in ObjectPrototypeKeys
    ensures FormatInventoryAsWritten(ps) == Some(InventoryText(ps))
  {
    GroupAsWrittenSpec(ps);
    assert !AnyThrows(ps);
    var g := GroupAsWritten(ps).value;
    assert seq(4, k requires 0 <= k < 4 =>
        Line(Categories[k], if Categories[k] in g then g[Categories[k]] else [])) ==
      seq(4, k requires 0 <= k < 4 => Line(Categories[k], Bucket(ps, Categories[k])));
  }

  /** The text for an inventory with nothing to show: four empty buckets. */
  lemma EmptyInventoryText()
    ensures InventoryText([]) == "Limited shelf life: \nFridge: \nFreezer: \nPantry: "
  {
    InventoryTextShape([]);
    assert Line("Limited shelf life", []) == "Limited shelf life: ";
    assert Line("Fridge", []) == "Fridge: ";
    assert Line("Freezer", []) == "Freezer: ";
    assert Line("Pantry", []) == "Pantry: ";
  }

  /** A page filed under `toString` makes the code as written throw; the model drops it. */
  lemma PrototypeCategoryThrows()
    ensures var p := Page("milk", Some("toString"), "", Some(UniqueId(Some("I-"), Some(7))));
      FormatInventoryAsWritten([p]).None? &&
      InventoryText([p]) == "Limited shelf life: \nFridge: \nFreezer: \nPantry: "
  {
    var p := Page("milk", Some("toString"), "", Some(UniqueId(Some("I-"), Some(7))));
    assert IdOf(p).Some?;
    assert Entry(p).Some?;
    assert CategoryOf(p) == "toString";
    var g0 := GroupAsWritten([]).value;
    assert "toString" !in g0 && "toString" in ObjectPrototypeKeys;
    assert StepAsWritten(g0, p).None?;
    assert [p][..0] == [] && [p][0] == p;
    assert GroupAsWritten([p]) == StepAsWritten(g0, p);
    assert CategoryOf(p) !in CategorySet;
    UnknownCategoryDropped([], p);
    assert [] + [p] == [p];
    EmptyInventoryText();
  }
}
