/** The lookup tables of genres, studios and tags (`src/library/db.rs`), which triggers keep beside
    the JSON columns of `items`, and the skip scan that lists one (`src/library/query.rs`). The
    three tables have the same triggers; this is one of them. */
module Facets {
  import opened Basics
  import opened ChangeBatch

  /** What `json_each` yields for one array element. */
  datatype JsonValue = Text(text: string) | Other(kind: string)

  /** The values a column stands for: its texts that are not empty. */
  predicate IsFacet(values: seq<JsonValue>, value: string) { value != "" && Text(value) in values }

  /** A row of the lookup table, by the number of its item's row. */
  datatype Entry = Entry(value: string, item: int)

  /** A row of `items`: its Jellyfin id and the column. */
  datatype ItemRow = ItemRow(itemId: string, column: string)

  /** A row of `item_libraries`. */
  datatype Membership = Membership(library: string, itemId: string)

  class Index {
    const parse: string -> seq<JsonValue>
    var items: map<int, ItemRow>
    var facets: set<Entry>
    var memberships: set<Membership>

    constructor (parse: string -> seq<JsonValue>)
      ensures this.parse == parse && items == map[] && memberships == {} && Valid()
    {
      this.parse, items, facets, memberships := parse, map[], {}, {};
    }

    /** The table agrees with the column. */
    ghost predicate Valid()
      reads this
    {
      forall value, id :: Entry(value, id) in facets <==> id in items && IsFacet(parse(items[id].column), value)
    }

    /** `INSERT OR IGNORE … SELECT value, new.id FROM json_each(…)`. */
    method InsertFacets(id: int)
      requires id in items
      modifies this`facets
      ensures forall value, other :: Entry(value, other) in facets
                <==> Entry(value, other) in old(facets) || (other == id && IsFacet(parse(items[id].column), value))
    {
      var values := parse(items[id].column);
      for i := 0 to |values|
        invariant forall value, other :: Entry(value, other) in facets
                    <==> Entry(value, other) in old(facets) || (other == id && IsFacet(values[..i], value))
      {
        if values[i].Text? && values[i].text != "" {
          facets := facets + {Entry(values[i].text, id)};
        }
        assert values[..i + 1] == values[..i] + [values[i]];
      }
      assert values[..|values|] == values;
    }

    method DeleteFacets(id: int)
      modifies this`facets
      ensures forall value, other :: Entry(value, other) in facets
                <==> Entry(value, other) in old(facets) && other != id
    {
      facets := set entry <- facets | entry.item != id;
    }

    method Insert(id: int, row: ItemRow)
      requires Valid() && id !in items
      modifies this`items, this`facets
      ensures Valid() && items == old(items)[id := row]
    {
      items := items[id := row];
      InsertFacets(id);
    }

    method Update(id: int, row: ItemRow)
      requires Valid() && id in items
      modifies this`items, this`facets
      ensures Valid() && items == old(items)[id := row]
    {
      var was := items[id];
      items := items[id := row];
      if was.column != row.column {
        DeleteFacets(id);
        InsertFacets(id);
      }
    }

    method Delete(id: int)
      requires Valid()
      modifies this`items, this`facets
      ensures Valid() && items == old(items) - {id}
    {
      if id in items {
        items := items - {id};
        DeleteFacets(id);
      }
    }

    /** `SELECT min(value) … WHERE value > after`. */
    method LeastAfter(after: Option<string>) returns (least: Option<string>)
      ensures IsLeastAfter(facets, after, least)
    {
      least := None;
      var rest := facets;
      while rest != {}
        invariant rest <= facets && IsLeastAfter(facets - rest, after, least)
        decreases rest
      {
        var entry :| entry in rest;
        var better := IsAfter(entry.value, after) && (least.None? || CompareText(entry.value, least.value) == Less);
        LeastOfOneMore(facets - rest, entry, after, least);
        assert facets - (rest - {entry}) == (facets - rest) + {entry};
        if better {
          least := Some(entry.value);
        }
        rest := rest - {entry};
      }
      assert facets - rest == facets;
    }

    /** The recursive skip scan: each step seeks the next value instead of walking every row. It
        lists every value some item has, once. */
    method SkipScan() returns (values: seq<string>)
      requires Valid()
      ensures StrictlyAscends(values) && "" !in values
      ensures forall value :: value in values <==> exists id :: id in items && IsFacet(parse(items[id].column), value)
    {
      values := [];
      var previous := LeastAfter(None);
      ghost var left := facets;
      while previous.Some?
        invariant StrictlyAscends(values)
        invariant IsLeastAfter(facets, if values == [] then None else Some(values[|values| - 1]), previous)
        invariant forall value <- values :: HasValue(facets, value)
        invariant forall entry <- facets :: entry.value in values || IsAfter(entry.value, Last(values))
        invariant left == set entry <- facets | IsAfter(entry.value, Last(values))
        decreases left
      {
        ghost var before := values;
        values := values + [previous.value];
        AppendAscends(before, previous.value);
        ghost var holder :| holder in facets && holder.value == previous.value;
        forall entry <- facets
          ensures entry.value in values || IsAfter(entry.value, Last(values))
          ensures IsAfter(entry.value, Last(values)) ==> IsAfter(entry.value, Last(before))
        {
          StepOrders(entry.value, previous.value, Last(before));
        }
        TextEqualIsIdentity(previous.value, previous.value);
        assert holder in left;
        left := set entry <- facets | IsAfter(entry.value, Last(values));
        assert holder !in left;
        previous := LeastAfter(previous);
      }
    }

    /** `SELECT DISTINCT`, joining the library's members to their rows and the rows to the table. */
    method ValuesIn(library: string) returns (values: seq<string>)
      requires Valid()
      ensures Distinct(values)
      ensures forall value :: value in values
                <==> exists id :: IsMember(id, library) && IsFacet(parse(items[id].column), value)
    {
      values := [];
      var rest := facets;
      while rest != {}
        invariant rest <= facets && Distinct(values)
        invariant forall value :: value in values
                    <==> exists entry <- facets - rest :: entry.value == value && IsMember(entry.item, library)
        decreases rest
      {
        var entry :| entry in rest;
        OneMoreEntry(values, facets - rest, entry, library);
        assert facets - (rest - {entry}) == (facets - rest) + {entry};
        if IsMember(entry.item, library) && entry.value !in values {
          values := [entry.value] + values;
        }
        rest := rest - {entry};
      }
      assert facets - rest == facets;
      forall value | exists id :: IsMember(id, library) && IsFacet(parse(items[id].column), value)
        ensures value in values
      {
        var id :| IsMember(id, library) && IsFacet(parse(items[id].column), value);
        assert Entry(value, id) in facets;
      }
    }

    predicate IsMember(id: int, library: string)
      reads this
    {
      id in items && Membership(library, items[id].itemId) in memberships
    }

    lemma OneMoreEntry(values: seq<string>, seen: set<Entry>, entry: Entry, library: string)
      requires Distinct(values)
      requires forall value :: value in values
                 <==> exists other <- seen :: other.value == value && IsMember(other.item, library)
      ensures var more := if IsMember(entry.item, library) && entry.value !in values then [entry.value] + values
                          else values;
              && Distinct(more)
              && (forall value :: value in more
                    <==> exists other <- seen + {entry} :: other.value == value && IsMember(other.item, library))
    {
      var more := if IsMember(entry.item, library) && entry.value !in values then [entry.value] + values else values;
      assert more != values ==> more[1..] == values;
      forall value
        ensures (exists other <- seen + {entry} :: other.value == value && IsMember(other.item, library))
          <==> value in values || (value == entry.value && IsMember(entry.item, library))
      {
        if value in values {
          var other :| other in seen && other.value == value && IsMember(other.item, library);
          assert other in seen + {entry};
        }
        if value == entry.value && IsMember(entry.item, library) {
          assert entry in seen + {entry};
        }
      }
    }

    /** Every value of an item, or of an item in the library, once, in an order that ignores case. */
    method FacetValues(library: Option<string>) returns (values: seq<string>)
      requires Valid()
      ensures Distinct(values) && InCaseOrder(values) && "" !in values
      ensures forall value :: value in values
                <==> exists id :: id in items && (library.Some? ==> IsMember(id, library.value))
                                  && IsFacet(parse(items[id].column), value)
    {
      var found: seq<string>;
      if library.None? {
        found := SkipScan();
        StrictlyAscendingIsDistinct(found);
      } else {
        found := ValuesIn(library.value);
      }
      values := SortedByCase(found);
      SortingKeepsValues(found);
    }
  }

  // ---- ORDER BY value COLLATE NOCASE ----

  predicate Distinct(values: seq<string>) { values == [] || (values[0] !in values[1..] && Distinct(values[1..])) }

  /** ASCII letters compare without their case, everything else as it is. */
  function FoldCase(text: string): string {
    if text == [] then [] else [LowerAscii(text[0])] + FoldCase(text[1..])
  }

  function CompareNoCase(a: string, b: string): Ordering { CompareText(FoldCase(a), FoldCase(b)) }

  lemma {:induction false} FoldedAt(text: string, i: nat)
    requires i < |text|
    ensures |FoldCase(text)| == |text| && FoldCase(text)[i] == LowerAscii(text[i])
  {
    if i > 0 {
      FoldedAt(text[1..], i - 1);
    } else if |text| > 1 {
      FoldedAt(text[1..], 0);
    }
  }

  /** Texts that differ in the case of letters alone take the same place among all others. */
  lemma CaseIsIgnored(a: string, b: string, other: string)
    requires |a| == |b| && forall i | 0 <= i < |a| :: LowerAscii(a[i]) == LowerAscii(b[i])
    ensures CompareNoCase(a, b) == Equal && CompareNoCase(a, other) == CompareNoCase(b, other)
  {
    forall i: nat | i < |a|
      ensures |FoldCase(a)| == |FoldCase(b)| == |a| && FoldCase(a)[i] == FoldCase(b)[i]
    {
      FoldedAt(a, i);
      FoldedAt(b, i);
    }
    if a != [] {
      FoldedAt(a, 0);
      FoldedAt(b, 0);
    }
    assert FoldCase(a) == FoldCase(b);
    TextEqualIsIdentity(FoldCase(a), FoldCase(b));
  }

  /** And texts without capitals compare as they are. */
  lemma {:induction false} SmallTextsCompareAsTheyAre(a: string, b: string)
    requires (forall ch <- a :: LowerAscii(ch) == ch) && (forall ch <- b :: LowerAscii(ch) == ch)
    ensures CompareNoCase(a, b) == CompareText(a, b)
  {
    if a != [] && b != [] {
      assert a[0] in a && b[0] in b;
      assert forall ch <- a[1..] :: ch in a;
      assert forall ch <- b[1..] :: ch in b;
      SmallTextsCompareAsTheyAre(a[1..], b[1..]);
    }
  }

  predicate InCaseOrder(values: seq<string>) {
    |values| >= 2 ==> CompareNoCase(values[0], values[1]) != Greater && InCaseOrder(values[1..])
  }

  function InsertedByCase(values: seq<string>, value: string): seq<string> {
    if values == [] || CompareNoCase(value, values[0]) != Greater then [value] + values
    else [values[0]] + InsertedByCase(values[1..], value)
  }

  function SortedByCase(values: seq<string>): seq<string> {
    if values == [] then [] else InsertedByCase(SortedByCase(values[1..]), values[0])
  }

  lemma {:induction false} InsertingKeepsOrder(values: seq<string>, value: string)
    requires InCaseOrder(values)
    ensures InCaseOrder(InsertedByCase(values, value))
    ensures forall x :: x in InsertedByCase(values, value) <==> x == value || x in values
    ensures Distinct(values) && value !in values ==> Distinct(InsertedByCase(values, value))
  {
    if values != [] {
      TextSwaps(FoldCase(value), FoldCase(values[0]));
      if CompareNoCase(value, values[0]) == Greater {
        InsertingKeepsOrder(values[1..], value);
        assert InsertedByCase(values, value)[1..] == InsertedByCase(values[1..], value);
      } else {
        assert InsertedByCase(values, value)[1..] == values;
      }
    }
  }

  lemma {:induction false} SortingKeepsValues(values: seq<string>)
    ensures InCaseOrder(SortedByCase(values)) && forall x :: x in SortedByCase(values) <==> x in values
    ensures Distinct(values) ==> Distinct(SortedByCase(values))
  {
    if values != [] {
      SortingKeepsValues(values[1..]);
      InsertingKeepsOrder(SortedByCase(values[1..]), values[0]);
    }
  }

  lemma {:induction false} StrictlyAscendingIsDistinct(values: seq<string>)
    requires StrictlyAscends(values)
    ensures Distinct(values)
  {
    if values != [] {
      HeadIsNotRepeated(values);
      StrictlyAscendingIsDistinct(values[1..]);
    }
  }

  // ---- The skip scan ----

  predicate HasValue(facets: set<Entry>, value: string) { exists entry <- facets :: entry.value == value }

  function Last(values: seq<string>): Option<string> {
    if values == [] then None else Some(values[|values| - 1])
  }

  predicate IsAfter(value: string, after: Option<string>) {
    after.Some? ==> CompareText(after.value, value) == Less
  }

  ghost predicate IsLeastAfter(facets: set<Entry>, after: Option<string>, least: Option<string>) {
    match least
    case None => forall entry <- facets :: !IsAfter(entry.value, after)
    case Some(value) =>
      && HasValue(facets, value) && IsAfter(value, after)
      && forall entry <- facets | IsAfter(entry.value, after) :: CompareText(value, entry.value) != Greater
  }

  lemma LeastOfOneMore(facets: set<Entry>, entry: Entry, after: Option<string>, least: Option<string>)
    requires IsLeastAfter(facets, after, least)
    ensures IsLeastAfter(facets + {entry}, after,
                         if IsAfter(entry.value, after)
                            && (least.None? || CompareText(entry.value, least.value) == Less)
                         then Some(entry.value) else least)
  {
    TextEqualIsIdentity(entry.value, entry.value);
    var more := facets + {entry};
    assert entry in more;
    if least.Some? {
      TextSwaps(entry.value, least.value);
      forall other <- facets | IsAfter(other.value, after)
        ensures CompareText(entry.value, least.value) == Less ==> CompareText(entry.value, other.value) != Greater
      {
        TextComposes(entry.value, least.value, other.value);
      }
      var holder :| holder in facets && holder.value == least.value;
      assert holder in more;
    }
  }

  /** Of two values, the later is not before the earlier; a value not after the next one is the
      next one, or was listed before it. */
  lemma StepOrders(value: string, next: string, last: Option<string>)
    requires IsAfter(next, last)
    ensures IsAfter(value, Some(next)) ==> IsAfter(value, last)
    ensures CompareText(next, value) == Equal <==> value == next
  {
    TextEqualIsIdentity(next, value);
    if last.Some? {
      TextComposes(last.value, next, value);
    }
  }

  lemma {:induction false} AppendAscends(values: seq<string>, next: string)
    requires StrictlyAscends(values) && IsAfter(next, Last(values))
    ensures StrictlyAscends(values + [next])
  {
    if |values| >= 2 {
      AppendAscends(values[1..], next);
      assert (values + [next])[1..] == values[1..] + [next];
    }
  }
}
