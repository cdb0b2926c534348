/** Repairing a saved home page list (`HomeSettings` in `src/preferences/accounts.rs`): built-in
    elements a newer version added are put back in their canonical place. */
module HomeSettings {
  import opened Basics

  const BUILT_INS := 8

  /** A built-in home element, by its place in `HomeBuiltIn::ORDER`: watching, because you
      watched, recently added, recently added shows, upcoming, latest movies, latest shows,
      my list. */
  type HomeBuiltIn = order: nat | order < BUILT_INS

  datatype ElementId =
    | BuiltIn(order: HomeBuiltIn)
    | Genre(name: string)
    | Collection(profile: string)
    | Library(library: string)

  datatype HomeElement = HomeElement(element: ElementId, enabled: bool)

  const MAX_HOME_ELEMENTS := 512

  const MAX_GENRE_LENGTH := 100

  predicate IsControl(ch: char) { ch <= '\U{1F}' || '\U{7F}' <= ch <= '\U{9F}' }

  /** What a genre or a collection may be called. */
  predicate IsWellNamed(id: ElementId) {
    match id
    case Genre(name) => !IsBlank(name) && |name| <= MAX_GENRE_LENGTH && forall ch <- name :: !IsControl(ch)
    case Collection(profile) => IsOpaqueId(profile)
    case BuiltIn(_) | Library(_) => true
  }

  /** A genre has at most a hundred characters, not all of them white space and none a control
      character; a collection has an id as the app makes them. */
  lemma WellNamedExactly(name: string)
    ensures IsWellNamed(Genre(name))
      <==> |name| <= 100 && (exists ch <- name :: !IsWhitespace(ch))
           && forall ch <- name :: '\U{20}' <= ch <= '\U{7E}' || '\U{A0}' <= ch
    ensures IsWellNamed(Collection(name)) <==> 16 <= |name| <= 64 && forall ch <- name :: ch in "0123456789abcdefABCDEF"
  {
    OpaqueIdByDigit(name);
  }

  // ---- The list before and after one insertion ----

  /** The index of the first element with this id, as `Iterator::position` finds it. */
  function PositionOf(elements: seq<HomeElement>, id: ElementId): (p: Option<nat>) {
    Position(elements, (item: HomeElement) => item.element == id)
  }

  /** Just after the nearest earlier built-in present, or the front. */
  function InsertionPoint(elements: seq<HomeElement>, order: nat): (p: nat)
    requires order <= BUILT_INS
    ensures p <= |elements|
  {
    if order == 0 then 0
    else
      match PositionOf(elements, BuiltIn(order - 1))
      case Some(index) => index + 1
      case None => InsertionPoint(elements, order - 1)
  }

  function InsertAt<T>(items: seq<T>, p: nat, item: T): seq<T>
    requires p <= |items|
  {
    if p == 0 then [item] + items else [items[0]] + InsertAt(items[1..], p - 1, item)
  }

  lemma {:induction false} InsertAtSplits<T>(items: seq<T>, p: nat, item: T)
    requires p <= |items|
    ensures InsertAt(items, p, item) == items[..p] + [item] + items[p..]
  {
    if p > 0 {
      InsertAtSplits(items[1..], p - 1, item);
    }
  }

  function Ensured(elements: seq<HomeElement>, order: nat): seq<HomeElement>
    requires order < BUILT_INS
  {
    var id := BuiltIn(order);
    if PositionOf(elements, id).Some? then elements
    else InsertAt(elements, InsertionPoint(elements, order), HomeElement(id, true))
  }

  function EnsureOne(elements: seq<HomeElement>, order: nat): seq<HomeElement> {
    if order < BUILT_INS then Ensured(elements, order) else elements
  }

  /** `start` after the steps 0 to `n - 1`. */
  function Folded<T>(step: (T, nat) -> T, start: T, n: nat): T {
    if n == 0 then start else step(Folded(step, start, n - 1), n - 1)
  }

  lemma {:induction false} FoldKeeps<T(!new)>(step: (T, nat) -> T, start: T, n: nat, holds: (T, nat) -> bool)
    requires holds(start, 0)
    requires forall t, k: nat | k < n && holds(t, k) :: holds(step(t, k), k + 1)
    ensures holds(Folded(step, start, n), n)
  {
    if n > 0 {
      FoldKeeps(step, start, n - 1, holds);
    }
  }

  /** The list after the first `n` built-ins were looked at. */
  function Repaired(elements: seq<HomeElement>, n: nat): seq<HomeElement> { Folded(EnsureOne, elements, n) }

  class Settings {
    var elements: seq<HomeElement>

    constructor (elements: seq<HomeElement>)
      ensures this.elements == elements
    {
      this.elements := elements;
    }

    method InsertMissingBuiltIns()
      modifies this
      ensures elements == Repaired(old(elements), BUILT_INS)
    {
      for order := 0 to BUILT_INS
        invariant elements == Repaired(old(elements), order)
      {
        var element := BuiltIn(order);
        if PositionOf(elements, element).Some? {
          continue;
        }
        var position := InsertionPoint(elements, order);
        InsertAtSplits(elements, position, HomeElement(element, true));
        elements := elements[..position] + [HomeElement(element, true)] + elements[position..];
      }
    }

    method Validate() returns (ok: bool)
      ensures ok == IsValid(elements)
    {
      if |elements| > MAX_HOME_ELEMENTS {
        return false;
      }
      var ids: set<ElementId> := {};
      for i := 0 to |elements|
        invariant forall id :: Count(elements[..i], id) == if id in ids then 1 else 0
        invariant forall id <- ids :: IsWellNamed(id)
      {
        var id := elements[i].element;
        assert elements[..i + 1] == elements[..i] + [elements[i]];
        assert elements == elements[..i + 1] + elements[i + 1..];
        forall other ensures Count(elements[..i + 1], other)
                             == Count(elements[..i], other) + if other == id then 1 else 0 {
          CountAppend(elements[..i], [elements[i]], other);
        }
        CountAppend(elements[..i + 1], elements[i + 1..], id);
        if id in ids || !IsWellNamed(id) {
          assert Count(elements, id) >= Count(elements[..i + 1], id) >= 1;
          return false;
        }
        ids := ids + {id};
      }
      assert elements[..|elements|] == elements;
      ok := forall order: HomeBuiltIn :: BuiltIn(order) in ids;
    }
  }

  // ---- What the repair promises ----

  /** How often an id occurs. */
  function Count(elements: seq<HomeElement>, id: ElementId): nat {
    if elements == [] then 0
    else (if elements[0].element == id then 1 else 0) + Count(elements[1..], id)
  }

  ghost predicate NoDuplicates(elements: seq<HomeElement>) {
    forall id :: Count(elements, id) <= 1
  }

  ghost predicate WellNamed(elements: seq<HomeElement>) {
    forall id :: Count(elements, id) > 0 ==> IsWellNamed(id)
  }

  ghost predicate IsValid(elements: seq<HomeElement>) {
    && |elements| <= MAX_HOME_ELEMENTS
    && NoDuplicates(elements)
    && WellNamed(elements)
    && forall order: HomeBuiltIn :: Count(elements, BuiltIn(order)) > 0
  }

  /** Built-ins stand in canonical order, anything between them. */
  ghost predicate Canonical(elements: seq<HomeElement>) {
    forall i, j | 0 <= i < j < |elements| && elements[i].element.BuiltIn? && elements[j].element.BuiltIn? ::
      elements[i].element.order < elements[j].element.order
  }

  lemma {:induction false} CountAppend(a: seq<HomeElement>, b: seq<HomeElement>, id: ElementId)
    ensures Count(a + b, id) == Count(a, id) + Count(b, id)
  {
    if a == [] {
      assert a + b == b;
    } else {
      assert (a + b)[1..] == a[1..] + b;
      CountAppend(a[1..], b, id);
    }
  }

  lemma {:induction false} PositionFindsIds(elements: seq<HomeElement>, id: ElementId)
    ensures PositionOf(elements, id).Some? <==> Count(elements, id) > 0
  {
    if elements != [] {
      PositionFindsIds(elements[1..], id);
    }
  }

  lemma {:induction false} InsertCounts(elements: seq<HomeElement>, p: nat, item: HomeElement, id: ElementId)
    requires p <= |elements|
    ensures Count(InsertAt(elements, p, item), id)
      == Count(elements, id) + if id == item.element then 1 else 0
  {
    if p == 0 {
      assert ([item] + elements)[1..] == elements;
    } else {
      InsertCounts(elements[1..], p - 1, item, id);
    }
  }

  lemma EnsuredCounts(elements: seq<HomeElement>, order: nat, id: ElementId)
    requires order < BUILT_INS
    ensures Count(Ensured(elements, order), id)
      == if id == BuiltIn(order) && Count(elements, id) == 0 then 1 else Count(elements, id)
  {
    PositionFindsIds(elements, BuiltIn(order));
    InsertCounts(elements, InsertionPoint(elements, order), HomeElement(BuiltIn(order), true), id);
  }

  /** Exactly the missing built-ins are added, each once. */
  lemma RepairAddsTheMissing(elements: seq<HomeElement>, n: nat, id: ElementId)
    requires n <= BUILT_INS
    ensures Count(Repaired(elements, n), id)
      == if id.BuiltIn? && id.order < n && Count(elements, id) == 0 then 1 else Count(elements, id)
  {
    var holds := (list: seq<HomeElement>, k: nat) =>
      Count(list, id) == if id.BuiltIn? && id.order < k && Count(elements, id) == 0 then 1 else Count(elements, id);
    forall list, k: nat | k < n && holds(list, k)
      ensures holds(EnsureOne(list, k), k + 1)
    {
      EnsuredCounts(list, k, id);
    }
    FoldKeeps(EnsureOne, elements, n, holds);
  }

  /** How many of the first `n` built-ins the list lacks. */
  function MissingCount(elements: seq<HomeElement>, n: nat): nat
    requires n <= BUILT_INS
  {
    if n == 0 then 0
    else MissingCount(elements, n - 1) + if Count(elements, BuiltIn(n - 1)) == 0 then 1 else 0
  }

  /** The built-ins from `k` on are there as often as in the old list. */
  ghost predicate UntouchedFrom(elements: seq<HomeElement>, list: seq<HomeElement>, k: nat) {
    forall order: HomeBuiltIn | k <= order :: Count(list, BuiltIn(order)) == Count(elements, BuiltIn(order))
  }

  lemma EnsuredLeavesLater(elements: seq<HomeElement>, list: seq<HomeElement>, k: nat)
    requires k < BUILT_INS && UntouchedFrom(elements, list, k)
    ensures UntouchedFrom(elements, Ensured(list, k), k + 1)
  {
    forall order: HomeBuiltIn | k + 1 <= order
      ensures Count(Ensured(list, k), BuiltIn(order)) == Count(elements, BuiltIn(order))
    {
      EnsuredCounts(list, k, BuiltIn(order));
    }
  }

  lemma {:induction false} InsertLengthens<T>(items: seq<T>, p: nat, item: T)
    requires p <= |items|
    ensures |InsertAt(items, p, item)| == |items| + 1
  {
    if p > 0 {
      InsertLengthens(items[1..], p - 1, item);
    }
  }

  lemma EnsuredLength(elements: seq<HomeElement>, order: nat)
    requires order < BUILT_INS
    ensures |Ensured(elements, order)| == |elements| + if Count(elements, BuiltIn(order)) == 0 then 1 else 0
  {
    PositionFindsIds(elements, BuiltIn(order));
    InsertLengthens(elements, InsertionPoint(elements, order), HomeElement(BuiltIn(order), true));
  }

  lemma RepairedLength(elements: seq<HomeElement>, n: nat)
    requires n <= BUILT_INS
    ensures |Repaired(elements, n)| == |elements| + MissingCount(elements, n)
  {
    ghost var holds := (list: seq<HomeElement>, k: nat) =>
      UntouchedFrom(elements, list, k) && (k <= BUILT_INS ==> |list| == |elements| + MissingCount(elements, k));
    forall list, k: nat | k < n && holds(list, k)
      ensures holds(EnsureOne(list, k), k + 1)
    {
      EnsuredLeavesLater(elements, list, k);
      EnsuredLength(list, k);
    }
    FoldKeeps(EnsureOne, elements, n, holds);
  }

  /** The elements that satisfy `keep`, in order. */
  function Filter(elements: seq<HomeElement>, keep: HomeElement -> bool): seq<HomeElement> {
    if elements == [] then []
    else if keep(elements[0]) then [elements[0]] + Filter(elements[1..], keep)
    else Filter(elements[1..], keep)
  }

  lemma {:induction false} FilterAll(elements: seq<HomeElement>, keep: HomeElement -> bool)
    requires forall e <- elements :: keep(e)
    ensures Filter(elements, keep) == elements
  {
    if elements != [] {
      FilterAll(elements[1..], keep);
    }
  }

  lemma {:induction false} MembersCount(elements: seq<HomeElement>, e: HomeElement)
    requires e in elements
    ensures Count(elements, e.element) > 0
  {
    if e != elements[0] {
      MembersCount(elements[1..], e);
    }
  }

  lemma {:induction false} InsertIsFiltered(elements: seq<HomeElement>, p: nat, item: HomeElement,
                                            keep: HomeElement -> bool)
    requires p <= |elements| && !keep(item)
    ensures Filter(InsertAt(elements, p, item), keep) == Filter(elements, keep)
  {
    if p == 0 {
      assert ([item] + elements)[1..] == elements;
    } else {
      InsertIsFiltered(elements[1..], p - 1, item, keep);
    }
  }

  function HeldBy(elements: seq<HomeElement>): HomeElement -> bool {
    (e: HomeElement) => Count(elements, e.element) > 0
  }

  lemma EnsuredIsFiltered(elements: seq<HomeElement>, order: nat, keep: HomeElement -> bool)
    requires order < BUILT_INS
    requires Count(elements, BuiltIn(order)) == 0 ==> !keep(HomeElement(BuiltIn(order), true))
    ensures Filter(Ensured(elements, order), keep) == Filter(elements, keep)
  {
    PositionFindsIds(elements, BuiltIn(order));
    if Count(elements, BuiltIn(order)) == 0 {
      InsertIsFiltered(elements, InsertionPoint(elements, order), HomeElement(BuiltIn(order), true), keep);
    }
  }

  /** The old list survives in order: dropping the added elements gives it back. */
  lemma OldListSurvives(elements: seq<HomeElement>, n: nat)
    requires n <= BUILT_INS
    ensures Filter(Repaired(elements, n), HeldBy(elements)) == elements
  {
    ghost var holds := (list: seq<HomeElement>, k: nat) =>
      UntouchedFrom(elements, list, k) && Filter(list, HeldBy(elements)) == elements;
    forall e <- elements ensures HeldBy(elements)(e) {
      MembersCount(elements, e);
    }
    FilterAll(elements, HeldBy(elements));
    forall list, k: nat | k < n && holds(list, k)
      ensures holds(EnsureOne(list, k), k + 1)
    {
      EnsuredLeavesLater(elements, list, k);
      EnsuredIsFiltered(list, k, HeldBy(elements));
    }
    FoldKeeps(EnsureOne, elements, n, holds);
  }

  lemma {:induction false} InsertMembers<T>(items: seq<T>, p: nat, item: T, e: T)
    requires p <= |items|
    ensures e in InsertAt(items, p, item) <==> e == item || e in items
  {
    if p > 0 {
      InsertMembers(items[1..], p - 1, item, e);
    }
  }

  lemma EnsuredMembers(elements: seq<HomeElement>, order: nat, e: HomeElement)
    requires order < BUILT_INS && e in Ensured(elements, order)
    ensures e in elements || e == HomeElement(BuiltIn(order), true)
  {
    InsertMembers(elements, InsertionPoint(elements, order), HomeElement(BuiltIn(order), true), e);
  }

  predicate OldOrEnabled(elements: seq<HomeElement>, e: HomeElement) {
    e in elements || (e.element.BuiltIn? && e.enabled)
  }

  /** Every added element is an enabled built-in. */
  lemma AddedElementsAreEnabled(elements: seq<HomeElement>, n: nat)
    requires n <= BUILT_INS
    ensures forall e <- Repaired(elements, n) :: e in elements || (e.element.BuiltIn? && e.enabled)
  {
    var holds := (list: seq<HomeElement>, k: nat) => forall e <- list :: OldOrEnabled(elements, e);
    forall list, k: nat | k < n && holds(list, k)
      ensures holds(EnsureOne(list, k), k + 1)
    {
      forall e <- Ensured(list, k)
        ensures OldOrEnabled(elements, e)
      {
        EnsuredMembers(list, k, e);
      }
    }
    FoldKeeps(EnsureOne, elements, n, holds);
  }

  lemma InsertKeepsOrder(elements: seq<HomeElement>, p: nat, item: HomeElement)
    requires p <= |elements| && Canonical(elements) && item.element.BuiltIn?
    requires forall i | 0 <= i < p && elements[i].element.BuiltIn? :: elements[i].element.order < item.element.order
    requires forall i | p <= i < |elements| && elements[i].element.BuiltIn? ::
               item.element.order < elements[i].element.order
    ensures Canonical(InsertAt(elements, p, item))
  {
    var next := InsertAt(elements, p, item);
    InsertAtSplits(elements, p, item);
    forall i, j | 0 <= i < j < |next| && next[i].element.BuiltIn? && next[j].element.BuiltIn?
      ensures next[i].element.order < next[j].element.order
    {
      var wasI, wasJ := if i < p then i else i - 1, if j < p then j else j - 1;
      assert next[i] == if i == p then item else elements[wasI];
      assert next[j] == if j == p then item else elements[wasJ];
    }
  }

  lemma EnsuredKeepsOrder(elements: seq<HomeElement>, order: nat)
    requires order < BUILT_INS && Canonical(elements)
    requires order > 0 ==> Count(elements, BuiltIn(order - 1)) > 0
    ensures Canonical(Ensured(elements, order)) && Count(Ensured(elements, order), BuiltIn(order)) > 0
  {
    EnsuredCounts(elements, order, BuiltIn(order));
    if order > 0 {
      PositionFindsIds(elements, BuiltIn(order - 1));
    }
    if PositionOf(elements, BuiltIn(order)).None? {
      InsertKeepsOrder(elements, InsertionPoint(elements, order), HomeElement(BuiltIn(order), true));
    }
  }

  /** Canonical order is kept. */
  lemma RepairKeepsOrder(elements: seq<HomeElement>, n: nat)
    requires n <= BUILT_INS && Canonical(elements)
    ensures Canonical(Repaired(elements, n))
  {
    ghost var holds := (list: seq<HomeElement>, k: nat) =>
      Canonical(list) && (0 < k <= BUILT_INS ==> Count(list, BuiltIn(k - 1)) > 0);
    forall list, k: nat | k < n && holds(list, k)
      ensures holds(EnsureOne(list, k), k + 1)
    {
      EnsuredKeepsOrder(list, k);
    }
    FoldKeeps(EnsureOne, elements, n, holds);
  }

  /** Built-in `j` stands in front, or right behind the first element of the one before it. */
  ghost predicate StandsInPlace(list: seq<HomeElement>, j: HomeBuiltIn) {
    exists p | 0 <= p < |list| :: StandsAt(list, j, p)
  }

  predicate StandsAt(list: seq<HomeElement>, j: HomeBuiltIn, p: nat)
    requires p < |list|
  {
    list[p].element == BuiltIn(j)
    && (j == 0 ==> p == 0)
    && (j > 0 ==> p > 0 && list[p - 1].element == BuiltIn(j - 1)
                  && forall i | 0 <= i < p - 1 :: list[i].element != BuiltIn(j - 1))
  }

  lemma EnsuredStandsInPlace(list: seq<HomeElement>, k: HomeBuiltIn)
    requires Count(list, BuiltIn(k)) == 0 && (k > 0 ==> Count(list, BuiltIn(k - 1)) > 0)
    ensures StandsInPlace(Ensured(list, k), k)
  {
    PositionFindsIds(list, BuiltIn(k));
    if k > 0 {
      PositionFindsIds(list, BuiltIn(k - 1));
    }
    var p := InsertionPoint(list, k);
    InsertAtSplits(list, p, HomeElement(BuiltIn(k), true));
    assert StandsAt(Ensured(list, k), k, p);
  }

  lemma InsertLeavesAt(list: seq<HomeElement>, q: nat, item: HomeElement, j: HomeBuiltIn, p: nat)
    requires p < |list| && StandsAt(list, j, p) && 0 < q <= |list| && q != p
    requires j > 0 ==> item.element != BuiltIn(j - 1)
    ensures var moved := if q < p then p + 1 else p;
            moved < |InsertAt(list, q, item)| && StandsAt(InsertAt(list, q, item), j, moved)
  {
    InsertAtSplits(list, q, item);
    var next := InsertAt(list, q, item);
    assert forall i | 0 <= i < |next| :: next[i] == if i < q then list[i] else if i == q then item else list[i - 1];
  }

  lemma LaterLeavesInPlace(list: seq<HomeElement>, k: HomeBuiltIn, j: HomeBuiltIn)
    requires j < k && Count(list, BuiltIn(k - 1)) > 0 && StandsInPlace(list, j)
    ensures StandsInPlace(Ensured(list, k), j)
  {
    PositionFindsIds(list, BuiltIn(k - 1));
    var q := InsertionPoint(list, k);
    assert list[q - 1].element == BuiltIn(k - 1);
    var p :| 0 <= p < |list| && StandsAt(list, j, p);
    if Ensured(list, k) != list {
      InsertLeavesAt(list, q, HomeElement(BuiltIn(k), true), j, p);
    }
  }

  /** What the repair keeps for built-in `j` before it looks at built-in `k`. */
  ghost predicate Tracks(elements: seq<HomeElement>, list: seq<HomeElement>, k: nat, j: HomeBuiltIn) {
    && UntouchedFrom(elements, list, k) && (0 < k <= BUILT_INS ==> Count(list, BuiltIn(k - 1)) > 0)
    && (j < k ==> StandsInPlace(list, j))
  }

  lemma EnsuredTracks(elements: seq<HomeElement>, list: seq<HomeElement>, k: HomeBuiltIn, j: HomeBuiltIn)
    requires Tracks(elements, list, k, j) && Count(elements, BuiltIn(j)) == 0
    ensures Tracks(elements, Ensured(list, k), k + 1, j)
  {
    EnsuredLeavesLater(elements, list, k);
    EnsuredCounts(list, k, BuiltIn(k));
    if j < k {
      LaterLeavesInPlace(list, k, j);
    } else if j == k {
      EnsuredStandsInPlace(list, k);
    }
  }

  /** Every added built-in stands directly behind the one before it in the canonical order, whatever
      else the list holds, and the first of all stands in front. */
  lemma AddedStandsInPlace(elements: seq<HomeElement>, j: HomeBuiltIn, n: nat)
    requires j < n <= BUILT_INS && Count(elements, BuiltIn(j)) == 0
    ensures StandsInPlace(Repaired(elements, n), j)
  {
    ghost var holds := (list: seq<HomeElement>, k: nat) => Tracks(elements, list, k, j);
    forall list, k: nat | k < n && holds(list, k)
      ensures holds(EnsureOne(list, k), k + 1)
    {
      EnsuredTracks(elements, list, k, j);
    }
    FoldKeeps(EnsureOne, elements, n, holds);
  }

  lemma NothingMissingNothingDone(elements: seq<HomeElement>, n: nat)
    requires n <= BUILT_INS
    requires forall order: HomeBuiltIn :: Count(elements, BuiltIn(order)) > 0
    ensures Repaired(elements, n) == elements
  {
    var holds := (list: seq<HomeElement>, k: nat) => list == elements;
    forall list, k: nat | k < n && holds(list, k)
      ensures holds(EnsureOne(list, k), k + 1)
    {
      PositionFindsIds(elements, BuiltIn(k));
    }
    FoldKeeps(EnsureOne, elements, n, holds);
  }

  /** Repairing twice is repairing once. */
  lemma RepairIsIdempotent(elements: seq<HomeElement>)
    ensures var repaired := Repaired(elements, BUILT_INS); Repaired(repaired, BUILT_INS) == repaired
  {
    forall order: HomeBuiltIn
      ensures Count(Repaired(elements, BUILT_INS), BuiltIn(order)) > 0
    {
      RepairAddsTheMissing(elements, BUILT_INS, BuiltIn(order));
    }
    NothingMissingNothingDone(Repaired(elements, BUILT_INS), BUILT_INS);
  }

  lemma ValidByCounts(elements: seq<HomeElement>, repaired: seq<HomeElement>, missing: nat)
    requires |repaired| == |elements| + missing
    requires forall id :: Count(repaired, id)
               == if id.BuiltIn? && Count(elements, id) == 0 then 1 else Count(elements, id)
    ensures IsValid(repaired)
      <==> NoDuplicates(elements) && WellNamed(elements) && |elements| + missing <= MAX_HOME_ELEMENTS
  {
  }

  /** A repaired list validates exactly when the old one had no duplicate and no ill-named
      element and leaves room for the built-ins it lacked. */
  lemma RepairedListValidates(elements: seq<HomeElement>)
    ensures IsValid(Repaired(elements, BUILT_INS))
      <==> && NoDuplicates(elements)
           && WellNamed(elements)
           && |elements| + MissingCount(elements, BUILT_INS) <= 512
  {
    RepairedLength(elements, BUILT_INS);
    forall id
      ensures Count(Repaired(elements, BUILT_INS), id)
        == if id.BuiltIn? && Count(elements, id) == 0 then 1 else Count(elements, id)
    {
      RepairAddsTheMissing(elements, BUILT_INS, id);
    }
    ValidByCounts(elements, Repaired(elements, BUILT_INS), MissingCount(elements, BUILT_INS));
  }
}
