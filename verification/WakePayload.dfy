/** What a claimed wake carries along: snapshots of the blackboard, cut to size on
    character boundaries, and the digest an agent reads. */
module WakePayload {
  import opened Options
  import opened Arith
  import opened Utf8

  const ENTRY_CAP := 64 * 1024
  const TOTAL_CAP := 256 * 1024
  const MAX_ITEMS := 50
  const CONTENT_PREVIEW := 2000
  const MAX_DIGESTS := 10

  type Key = string
  type TextBytes = s: seq<byte> | IsText(s)

  // ---- cutting text ----------------------------------------------------

  /** `n` is the last boundary of `s` not beyond `cap`. */
  predicate IsCut(s: seq<byte>, cap: nat, n: nat) {
    n <= cap <= |s| && IsBoundary(s, n) && forall k: nat :: n < k <= cap ==> !IsBoundary(s, k)
  }

  /** The longest beginning of `s` that fits and ends at a boundary. */
  function CutLength(s: seq<byte>, cap: nat): (n: nat)
    requires cap <= |s|
    ensures IsCut(s, cap, n)
  {
    CutDown(s, cap, cap)
  }

  function CutDown(s: seq<byte>, cap: nat, end: nat): (n: nat)
    requires end <= cap <= |s| && forall k: nat :: end < k <= cap ==> !IsBoundary(s, k)
    ensures IsCut(s, cap, n)
  {
    if IsBoundary(s, end) then end else CutDown(s, cap, end - 1)
  }

  function Cut(s: TextBytes, cap: nat): (r: seq<byte>)
    ensures r <= s && |r| <= cap && (r == s <==> |s| <= cap)
  {
    if |s| <= cap then s else s[..CutLength(s, cap)]
  }

  /** What is left is text, and cutting costs at most three bytes more than it must. */
  lemma CutIsGood(s: TextBytes, cap: nat)
    ensures IsText(Cut(s, cap)) && (|s| > cap ==> |Cut(s, cap)| + 3 >= cap)
  {
    if |s| > cap {
      CutIsText(s, CutLength(s, cap));
      var k := BoundaryIsNear(s, cap);
    }
  }

  method TruncateUtf8(s: TextBytes, cap: nat) returns (cut: TextBytes, dropped: bool)
    ensures cut == Cut(s, cap) && (dropped <==> cut != s)
  {
    CutIsGood(s, cap);
    if |s| <= cap {
      return s, false;
    }
    var end: nat := cap;
    while !IsBoundary(s, end)
      invariant end <= cap && forall k: nat :: end < k <= cap ==> !IsBoundary(s, k)
      decreases end
    {
      end := end - 1;
      if end == 0 {
        break;
      }
    }
    assert IsCut(s, cap, end);
    return s[..end], true;
  }

  method PreviewPrefix(s: TextBytes, cap: nat) returns (preview: TextBytes)
    ensures preview == Cut(s, cap)
  {
    CutIsGood(s, cap);
    if |s| <= cap {
      return s;
    }
    var end: nat := cap;
    while !IsBoundary(s, end)
      invariant end <= cap && forall k: nat :: end < k <= cap ==> !IsBoundary(s, k)
      decreases end
    {
      end := end - 1;
    }
    assert IsCut(s, cap, end);
    return s[..end];
  }

  // ---- the items -------------------------------------------------------

  /** A message of the mailbox. */
  datatype Record = Record(
    id: int, isWake: bool, from: string, sentAt: int, body: TextBytes, key: Option<Key>)

  datatype Item = Item(
    id: int, from: string, sentAt: int, body: TextBytes, key: Option<Key>,
    content: Option<TextBytes>, truncated: bool)

  predicate Ascending(s: seq<int>) {
    forall i, j :: 0 <= i < j < |s| ==> s[i] <= s[j]
  }

  /** The claimed ids in order. */
  function Sorted(ids: seq<int>): (r: seq<int>)
    ensures Ascending(r) && |r| == |ids|
  {
    if ids == [] then [] else Insert(ids[0], Sorted(ids[1..]))
  }

  function Insert(x: int, s: seq<int>): (r: seq<int>)
    requires Ascending(s)
    ensures |r| == |s| + 1 && Ascending(r) && (r[0] == x || (s != [] && r[0] == s[0]))
  {
    if s == [] || x <= s[0] then [x] + s
    else
      var rest := Insert(x, s[1..]);
      assert forall k :: 0 <= k < |rest| ==> s[0] <= rest[0] <= rest[k];
      [s[0]] + rest
  }

  lemma {:induction false} InsertAdds(x: int, s: seq<int>)
    requires Ascending(s)
    ensures multiset(Insert(x, s)) == multiset{x} + multiset(s)
  {
    if s != [] && x > s[0] {
      InsertAdds(x, s[1..]);
      assert s == [s[0]] + s[1..];
    }
  }

  lemma {:induction false} SortedIsSame(ids: seq<int>)
    ensures multiset(Sorted(ids)) == multiset(ids)
  {
    hide Insert, Ascending;
    if ids != [] {
      assert ids == [ids[0]] + ids[1..];
      SortedIsSame(ids[1..]);
      InsertAdds(ids[0], Sorted(ids[1..]));
    }
  }

  /** The wakes of a page of messages by id. */
  function ById(records: seq<Record>): (m: map<int, Record>)
    ensures forall id :: id in m ==> m[id] in records && m[id].isWake && m[id].id == id
  {
    if records == [] then map[]
    else
      var last := records[|records| - 1];
      var m := ById(records[..|records| - 1]);
      if last.isWake then m[last.id := last] else m
  }

  /** The blackboard, which is read anew for every message and may change in between:
      what the read for a message finds, without the keys whose read fails. */
  type Board = int -> map<Key, TextBytes>

  /** The snapshot of a record's key, as much of it as the budget allows. */
  function Content(rec: Record, board: Board, budget: nat): (c: Option<TextBytes>)
    ensures c.Some? ==> |c.value| <= budget
  {
    if rec.key.Some? && budget > 0 && rec.key.value in board(rec.id) then
      CutIsGood(board(rec.id)[rec.key.value], Min(ENTRY_CAP, budget));
      var c: TextBytes := Cut(board(rec.id)[rec.key.value], Min(ENTRY_CAP, budget));
      Some(c)
    else None
  }

  function MakeItem(rec: Record, board: Board, budget: nat): (item: Item)
    ensures Spent(item) <= budget && item.id == rec.id
  {
    var c := Content(rec, board, budget);
    CutIsGood(rec.body, ENTRY_CAP);
    Item(rec.id, rec.from, rec.sentAt, Cut(rec.body, ENTRY_CAP), rec.key, c,
      Cut(rec.body, ENTRY_CAP) != rec.body || (c.Some? && c.value != board(rec.id)[rec.key.value]))
  }

  function Spent(item: Item): nat { if item.content.Some? then |item.content.value| else 0 }

  /** The items of the ids still to do, each record used once. */
  function Items(ordered: seq<int>, byId: map<int, Record>, board: Board, budget: nat): seq<Item>
    requires forall id :: id in byId ==> byId[id].id == id
    decreases |ordered|
  {
    if ordered == [] then []
    else if ordered[0] !in byId then Items(ordered[1..], byId, board, budget)
    else
      var item := MakeItem(byId[ordered[0]], board, budget);
      [item] + Items(ordered[1..], byId - {ordered[0]}, board, budget - Spent(item))
  }

  /** The page of messages may fail to come; then there are no items. */
  function Inline(ids: seq<int>, page: Option<seq<Record>>, board: Board): seq<Item> {
    match page
    case None => []
    case Some(records) =>
      var ordered := Sorted(ids);
      Items(ordered[..Min(|ordered|, MAX_ITEMS)], ById(records), board, TOTAL_CAP)
  }

  lemma ItemsStep(first: seq<int>, i: nat, byId: map<int, Record>, board: Board, budget: nat, done: seq<Item>)
    requires i < |first| && forall id :: id in byId ==> byId[id].id == id
    ensures done + Items(first[i..], byId, board, budget)
      == if first[i] !in byId then done + Items(first[i + 1..], byId, board, budget)
         else
           var item := MakeItem(byId[first[i]], board, budget);
           done + [item] + Items(first[i + 1..], byId - {first[i]}, board, budget - Spent(item))
  {
    hide MakeItem;
    assert first[i..][1..] == first[i + 1..];
    if first[i] in byId {
      var item := MakeItem(byId[first[i]], board, budget);
      var rest := Items(first[i + 1..], byId - {first[i]}, board, budget - Spent(item));
      assert done + ([item] + rest) == done + [item] + rest;
    }
  }

  lemma InlineIs(ids: seq<int>, records: seq<Record>, board: Board)
    ensures ids == [] ==> Inline(ids, Some(records), board) == []
    ensures var first := Sorted(ids)[..Min(|Sorted(ids)|, MAX_ITEMS)];
      Inline(ids, Some(records), board) == [] + Items(first[0..], ById(records), board, TOTAL_CAP)
  {
    hide Items, ById;
    var first := Sorted(ids)[..Min(|Sorted(ids)|, MAX_ITEMS)];
    assert first[0..] == first;
    if ids == [] {
      assert first == [];
      NoItems(ById(records), board, TOTAL_CAP);
    }
  }

  lemma NoItems(byId: map<int, Record>, board: Board, budget: nat)
    requires forall id :: id in byId ==> byId[id].id == id
    ensures Items([], byId, board, budget) == []
  {}

  method InlineWakePayloads(ids: seq<int>, page: Option<seq<Record>>, board: Board) returns (items: seq<Item>)
    ensures items == Inline(ids, page, board)
  {
    if ids == [] {
      if page.Some? {
        InlineIs(ids, page.value, board);
      }
      return [];
    }
    if page.None? {
      return [];
    }
    var records := page.value;
    hide Items, Sorted, ById, MakeItem, Spent, IsText, Ascending, Inline;
    InlineIs(ids, records, board);
    var byId := ById(records);
    var ordered := Sorted(ids);
    var first := ordered[..Min(|ordered|, MAX_ITEMS)];
    items := [];
    var budget: nat := TOTAL_CAP;
    for i := 0 to |first|
      invariant forall id :: id in byId ==> byId[id].id == id
      invariant items + Items(first[i..], byId, board, budget) == Inline(ids, page, board)
    {
      ItemsStep(first, i, byId, board, budget, items);
      var id := first[i];
      if id !in byId {
        continue;
      }
      var rec := byId[id];
      byId := byId - {id};
      var item: Item;
      item, budget := InlineOne(rec, board, budget);
      items := items + [item];
    }
    NoItems(byId, board, budget);
    assert first[|first|..] == [] && items + [] == items;
  }

  /** The item of one record, and what is left of the budget. */
  method InlineOne(rec: Record, board: Board, budget: nat) returns (item: Item, left: nat)
    ensures item == MakeItem(rec, board, budget) && left == budget - Spent(item)
  {
    left := budget;
    var body, truncated := TruncateUtf8(rec.body, ENTRY_CAP);
    var content: Option<TextBytes> := None;
    if rec.key.Some? && budget > 0 && rec.key.value in board(rec.id) {
      var c, cut := TruncateUtf8(board(rec.id)[rec.key.value], Min(ENTRY_CAP, budget));
      left := SatSub(budget, |c|);
      truncated := truncated || cut;
      content := Some(c);
    }
    item := Item(rec.id, rec.from, rec.sentAt, body, rec.key, content, truncated);
  }

  // ---- what the items are ----------------------------------------------

  function TotalSpent(items: seq<Item>): nat {
    if items == [] then 0 else Spent(items[0]) + TotalSpent(items[1..])
  }

  /** An item tells the truth about its record and the blackboard. */
  ghost predicate Honest(item: Item, records: seq<Record>, board: Board) {
    && IsText(item.body) && |item.body| <= ENTRY_CAP
    && (item.content.Some? ==>
          && item.key.Some? && item.key.value in board(item.id) && |item.content.value| <= ENTRY_CAP
          && IsText(item.content.value) && item.content.value <= board(item.id)[item.key.value])
    && exists rec :: rec in records && rec.isWake && IsItemOf(item, rec, board)
  }

  /** The flag says exactly whether something was cut. */
  predicate IsItemOf(item: Item, rec: Record, board: Board) {
    && item.id == rec.id && item.from == rec.from && item.sentAt == rec.sentAt && item.key == rec.key
    && item.body <= rec.body
    && (item.truncated <==> item.body != rec.body || IsShort(item, board))
  }

  /** The content is not the whole value. */
  predicate IsShort(item: Item, board: Board) {
    item.content.Some?
    && (item.key.None? || item.key.value !in board(item.id) || item.content.value != board(item.id)[item.key.value])
  }

  lemma MadeHonestly(rec: Record, board: Board, budget: nat, records: seq<Record>)
    requires rec in records && rec.isWake
    ensures Honest(MakeItem(rec, board, budget), records, board)
  {
    hide IsText, CutLength;
    CutIsGood(rec.body, ENTRY_CAP);
    assert IsItemOf(MakeItem(rec, board, budget), rec, board);
  }

  ghost predicate FromRecords(byId: map<int, Record>, records: seq<Record>) {
    forall id :: id in byId ==> byId[id] in records && byId[id].isWake && byId[id].id == id
  }

  lemma FirstItem(ordered: seq<int>, byId: map<int, Record>, board: Board, budget: nat)
    requires ordered != [] && ordered[0] in byId && forall id :: id in byId ==> byId[id].id == id
    ensures var item := MakeItem(byId[ordered[0]], board, budget);
      var items := Items(ordered, byId, board, budget);
      items != [] && items[0] == item
      && items[1..] == Items(ordered[1..], byId - {ordered[0]}, board, budget - Spent(item))
  {
    hide MakeItem;
  }

  lemma {:induction false} ItemsAreHonest(ordered: seq<int>, byId: map<int, Record>, board: Board, budget: nat,
      records: seq<Record>)
    requires FromRecords(byId, records)
    ensures var items := Items(ordered, byId, board, budget);
      && |items| <= |ordered| && TotalSpent(items) <= budget
      && forall i :: 0 <= i < |items| ==>
            items[i].id in ordered && items[i].id in byId && Honest(items[i], records, board)
    decreases |ordered|
  {
    hide Honest, MakeItem, Spent, IsText;
    if ordered != [] {
      var id := ordered[0];
      if id !in byId {
        ItemsAreHonest(ordered[1..], byId, board, budget, records);
      } else {
        var item := MakeItem(byId[id], board, budget);
        MadeHonestly(byId[id], board, budget, records);
        ItemsAreHonest(ordered[1..], byId - {id}, board, budget - Spent(item), records);
      }
    }
  }

  ghost predicate IdsAscend(items: seq<Item>) {
    forall i, j :: 0 <= i < j < |items| ==> items[i].id < items[j].id
  }

  lemma ConsAscends(item: Item, rest: seq<Item>)
    requires IdsAscend(rest) && forall i :: 0 <= i < |rest| ==> item.id < rest[i].id
    ensures IdsAscend([item] + rest)
  {}

  lemma {:induction false} ItemsAscend(ordered: seq<int>, byId: map<int, Record>, board: Board, budget: nat,
      records: seq<Record>)
    requires Ascending(ordered) && FromRecords(byId, records)
    ensures IdsAscend(Items(ordered, byId, board, budget))
    decreases |ordered|
  {
    hide Honest, MakeItem, Spent, IdsAscend;
    if ordered == [] {
      assert IdsAscend([]) by { NothingAscends(); }
    } else {
      var id := ordered[0];
      if id !in byId {
        ItemsAscend(ordered[1..], byId, board, budget, records);
      } else {
        var item := MakeItem(byId[id], board, budget);
        var left := budget - Spent(item);
        ItemsAscend(ordered[1..], byId - {id}, board, left, records);
        ItemsAreHonest(ordered[1..], byId - {id}, board, left, records);
        ConsAscends(item, Items(ordered[1..], byId - {id}, board, left));
      }
    }
  }

  lemma NothingAscends()
    ensures IdsAscend([])
  {}

  /** What a claim carries along: at most 50 items, in ascending order without
      repetition; every content a beginning of the blackboard value, text, and 256 KiB
      altogether; the truncated flag exactly where something was cut. */
  lemma InlineIsSound(ids: seq<int>, page: Option<seq<Record>>, board: Board)
    ensures var items := Inline(ids, page, board);
      && |items| <= Min(|ids|, MAX_ITEMS) && TotalSpent(items) <= TOTAL_CAP
      && (forall i :: 0 <= i < |items| ==> items[i].id in ids && page.Some? && Honest(items[i], page.value, board))
      && IdsAscend(items)
  {
    hide Honest, Items, Sorted, Ascending, IdsAscend;
    NothingAscends();
    if page.None? {
      return;
    }
    var records := page.value;
    var first := Sorted(ids)[..Min(|ids|, MAX_ITEMS)];
    ItemsAreHonest(first, ById(records), board, TOTAL_CAP, records);
    PrefixAscends(Sorted(ids), |first|);
    ItemsAscend(first, ById(records), board, TOTAL_CAP, records);
    forall id | id in first
      ensures id in ids
    {
      SortedIsSame(ids);
      assert id in multiset(Sorted(ids));
    }
  }

  lemma PrefixAscends(s: seq<int>, n: nat)
    requires n <= |s| && Ascending(s)
    ensures Ascending(s[..n])
  {}

  // ---- exactly which items, and what is in them ------------------------

  /** How many of the ids come before `id`. */
  function Before(ids: seq<int>, id: int): (n: nat)
    ensures n <= |ids|
  {
    if ids == [] then 0 else (if ids[0] < id then 1 else 0) + Before(ids[1..], id)
  }

  lemma {:induction false} BeforeInsert(x: int, s: seq<int>, id: int)
    requires Ascending(s)
    ensures Before(Insert(x, s), id) == (if x < id then 1 else 0) + Before(s, id)
  {
    if s == [] || x <= s[0] {
      assert ([x] + s)[1..] == s;
    } else {
      BeforeInsert(x, s[1..], id);
      assert Insert(x, s)[1..] == Insert(x, s[1..]);
    }
  }

  lemma {:induction false} BeforeSorted(ids: seq<int>, id: int)
    ensures Before(Sorted(ids), id) == Before(ids, id)
  {
    hide Insert, Ascending;
    if ids != [] {
      BeforeSorted(ids[1..], id);
      BeforeInsert(ids[0], Sorted(ids[1..]), id);
    }
  }

  /** In ascending order an id stands behind those before it, and the ones that stand
      behind it are no smaller. */
  lemma {:induction false} PlaceOf(s: seq<int>, id: int)
    requires Ascending(s) && id in s
    ensures Before(s, id) < |s| && s[Before(s, id)] == id
    ensures forall i :: 0 <= i < Before(s, id) ==> s[i] != id
  {
    if s[0] < id {
      assert id in s[1..];
      PlaceOf(s[1..], id);
    } else {
      NoneBefore(s, id);
    }
  }

  lemma {:induction false} NoneBefore(s: seq<int>, id: int)
    requires forall i :: 0 <= i < |s| ==> s[i] >= id
    ensures Before(s, id) == 0
  {
    if s != [] {
      NoneBefore(s[1..], id);
    }
  }

  /** The first 50 ids in ascending order are the claimed ids with fewer than 50 before
      them. */
  lemma FirstFifty(ids: seq<int>, id: int)
    ensures id in Sorted(ids)[..Min(|ids|, MAX_ITEMS)] <==> id in ids && Before(ids, id) < 50
  {
    hide Sorted, Ascending;
    var all := Sorted(ids);
    var n := Min(|ids|, MAX_ITEMS);
    SortedIsSame(ids);
    assert id in all <==> id in multiset(all);
    BeforeSorted(ids, id);
    if id in all {
      PlaceOf(all, id);
      if Before(ids, id) < n {
        assert all[..n][Before(ids, id)] == id;
      }
    }
  }

  ghost predicate DistinctRecords(records: seq<Record>) {
    forall i, j :: 0 <= i < j < |records| ==> records[i].id != records[j].id
  }

  lemma {:induction false} EveryWakeById(records: seq<Record>, rec: Record)
    requires DistinctRecords(records) && rec in records && rec.isWake
    ensures rec.id in ById(records) && ById(records)[rec.id] == rec
    decreases |records|
  {
    var last := records[|records| - 1];
    if rec != last {
      var i :| 0 <= i < |records| && records[i] == rec;
      assert rec == records[..|records| - 1][i];
      EveryWakeById(records[..|records| - 1], rec);
    }
  }

  lemma {:induction false} ItemInPlace(ordered: seq<int>, byId: map<int, Record>, board: Board, budget: nat,
      id: int) returns (i: nat)
    requires forall k :: k in byId ==> byId[k].id == k
    requires id in ordered && id in byId
    ensures var items := Items(ordered, byId, board, budget);
      i < |items| && TotalSpent(items[..i]) <= budget
      && items[i] == MakeItem(byId[id], board, budget - TotalSpent(items[..i]))
    decreases |ordered|
  {
    hide MakeItem, Spent;
    var items := Items(ordered, byId, board, budget);
    var first := ordered[0];
    if first !in byId {
      i := ItemInPlace(ordered[1..], byId, board, budget, id);
    } else {
      FirstItem(ordered, byId, board, budget);
      if first == id {
        i := 0;
        assert items[..0] == [];
      } else {
        var item := MakeItem(byId[first], board, budget);
        i := ItemInPlace(ordered[1..], byId - {first}, board, budget - Spent(item), id);
        i := i + 1;
        assert items[..i][1..] == items[1..][..i - 1] && items[..i][0] == item;
      }
    }
  }

  /** `c` is all of `s` if that fits, and else the longest beginning of it that ends at
      a character boundary and does. */
  predicate IsLongestBeginning(c: seq<byte>, s: seq<byte>, cap: nat) {
    && c <= s && |c| <= cap && (|s| <= cap ==> c == s)
    && (c != s ==> IsBoundary(s, |c|) && forall k: nat :: |c| < k <= cap ==> !IsBoundary(s, k))
  }

  lemma CutIsLongest(s: TextBytes, cap: nat)
    ensures IsLongestBeginning(Cut(s, cap), s, cap)
  {}

  /** What an item says of its message with so much of the budget left. */
  predicate Tells(item: Item, rec: Record, board: Board, budget: nat) {
    && item.id == rec.id && item.from == rec.from && item.sentAt == rec.sentAt && item.key == rec.key
    && IsLongestBeginning(item.body, rec.body, 64 * 1024)
    && (item.content.Some? <==> rec.key.Some? && rec.key.value in board(rec.id) && budget > 0)
    && (item.content.Some? ==>
          IsLongestBeginning(item.content.value, board(rec.id)[rec.key.value], Min(64 * 1024, budget)))
    && (item.truncated <==>
          item.body != rec.body || (item.content.Some? && item.content.value != board(rec.id)[rec.key.value]))
  }

  lemma MadeTells(rec: Record, board: Board, budget: nat)
    ensures Tells(MakeItem(rec, board, budget), rec, board, budget)
  {
    hide IsText, IsLongestBeginning, Cut;
    CutIsLongest(rec.body, ENTRY_CAP);
    if rec.key.Some? && rec.key.value in board(rec.id) {
      CutIsLongest(board(rec.id)[rec.key.value], Min(ENTRY_CAP, budget));
    }
  }

  /** In a page of messages with distinct ids, every wake that was claimed with fewer than
      50 claimed ids before its own has its item, with or without a key: the note cut at
      64 KiB, and the value of its key, if it is on the blackboard and the items before
      left some of the 256 KiB, cut at 64 KiB and at what is left. */
  lemma InlineMeans(ids: seq<int>, records: seq<Record>, board: Board, rec: Record) returns (i: nat)
    requires DistinctRecords(records) && rec in records && rec.isWake
    requires rec.id in ids && Before(ids, rec.id) < 50
    ensures var items := Inline(ids, Some(records), board);
      i < |items| && TotalSpent(items[..i]) <= 256 * 1024
      && Tells(items[i], rec, board, 256 * 1024 - TotalSpent(items[..i]))
  {
    hide Items, Sorted, MakeItem, ById, Tells, Before, TotalSpent;
    FirstFifty(ids, rec.id);
    EveryWakeById(records, rec);
    i := ItemInPlace(Sorted(ids)[..Min(|ids|, MAX_ITEMS)], ById(records), board, TOTAL_CAP, rec.id);
    MadeTells(rec, board, TOTAL_CAP - TotalSpent(Inline(ids, Some(records), board)[..i]));
  }

  lemma {:induction false} SomeWakeById(records: seq<Record>, rec: Record)
    requires rec in records && rec.isWake
    ensures rec.id in ById(records)
    decreases |records|
  {
    var last := records[|records| - 1];
    if rec != last {
      var i :| 0 <= i < |records| && records[i] == rec;
      assert rec == records[..|records| - 1][i];
      SomeWakeById(records[..|records| - 1], rec);
    }
  }

  /** In any page at all such a wake has an item with its id. */
  lemma InlineIsComplete(ids: seq<int>, records: seq<Record>, board: Board, rec: Record) returns (i: nat)
    requires rec in records && rec.isWake && rec.id in ids && Before(ids, rec.id) < 50
    ensures i < |Inline(ids, Some(records), board)| && Inline(ids, Some(records), board)[i].id == rec.id
  {
    hide Items, Sorted, ById, Before;
    FirstFifty(ids, rec.id);
    SomeWakeById(records, rec);
    i := ItemInPlace(Sorted(ids)[..Min(|ids|, MAX_ITEMS)], ById(records), board, TOTAL_CAP, rec.id);
  }

  /** And there are no other items: each is of a claimed wake of the page with fewer than
      50 before it. */
  lemma InlineOnly(ids: seq<int>, records: seq<Record>, board: Board, i: nat)
    requires i < |Inline(ids, Some(records), board)|
    ensures var id := Inline(ids, Some(records), board)[i].id;
      id in ids && Before(ids, id) < 50 && exists rec :: rec in records && rec.isWake && rec.id == id
  {
    hide Items, Sorted, Honest, Before;
    var items := Inline(ids, Some(records), board);
    ItemsAreHonest(Sorted(ids)[..Min(|ids|, MAX_ITEMS)], ById(records), board, TOTAL_CAP, records);
    FirstFifty(ids, items[i].id);
    var rec := ById(records)[items[i].id];
    assert rec in records && rec.isWake && rec.id == items[i].id;
  }

  // ---- the digest ------------------------------------------------------

  /** A line of the digest: a value in full, the beginning of one with a pointer to
      read the rest, or the mailbox note. */
  datatype Line =
    | Quote(from: string, key: Key, text: seq<byte>)
    | Teaser(from: string, key: Key, text: seq<byte>)
    | Note(from: string, body: seq<byte>)

  function DigestLine(item: Item): Line {
    if item.key.Some? && item.content.Some? then
      var preview := Cut(item.content.value, CONTENT_PREVIEW);
      if item.truncated || |preview| < |item.content.value| then Teaser(item.from, item.key.value, preview)
      else Quote(item.from, item.key.value, preview)
    else Note(item.from, item.body)
  }

  /** The digest of a response: its lines, and how many wakes are left for a pointer.
      Without items there is no digest and the agent is sent to list. */
  datatype Prompt = GoList(count: nat) | Digest(count: nat, lines: seq<Line>, more: nat)

  function PromptOf(count: nat, items: seq<Item>): Prompt {
    if items == [] then GoList(count)
    else
      var listed := Min(|items|, MAX_DIGESTS);
      Digest(count, seq(listed, i requires 0 <= i < listed => DigestLine(items[i])), SatSub(count, listed))
  }

  method ContinuationPrompt(count: nat, items: seq<Item>) returns (prompt: Prompt)
    ensures prompt == PromptOf(count, items)
  {
    if items == [] {
      return GoList(count);
    }
    var lines: seq<Line> := [];
    var listed := Min(|items|, MAX_DIGESTS);
    for i := 0 to listed
      invariant |lines| == i && forall j :: 0 <= j < i ==> lines[j] == DigestLine(items[j])
    {
      lines := lines + [DigestLine(items[i])];
    }
    return Digest(count, lines, if count > listed then count - listed else 0);
  }

  /** A line with a key and content is a quote if and only if nothing was cut and it has
      at most 2000 bytes, and else the longest beginning that fits with a pointer; any
      other line is the note. */
  predicate LineTells(line: Line, item: Item) {
    if item.key.None? || item.content.None? then line == Note(item.from, item.body)
    else if !item.truncated && |item.content.value| <= 2000 then
      line == Quote(item.from, item.key.value, item.content.value)
    else
      && line.Teaser? && line.from == item.from && line.key == item.key.value
      && IsLongestBeginning(line.text, item.content.value, 2000)
  }

  lemma LineIs(item: Item)
    ensures LineTells(DigestLine(item), item)
  {
    hide IsLongestBeginning, IsText;
    if item.content.Some? {
      CutIsLongest(item.content.value, CONTENT_PREVIEW);
    }
  }

  /** Every digest: without items the agent is sent to list; else the first ten items each
      have their line, in order and with their author, and the rest of the wakes are
      counted. */
  lemma PromptMeans(count: nat, items: seq<Item>)
    ensures match PromptOf(count, items)
      case GoList(n) => items == [] && n == count
      case Digest(n, lines, more) =>
        && items != [] && n == count && |lines| == Min(|items|, 10)
        && more == (if count > |lines| then count - |lines| else 0)
        && forall i :: 0 <= i < |lines| ==> LineTells(lines[i], items[i])
  {
    hide DigestLine, IsLongestBeginning, IsText;
    forall i | 0 <= i < |items|
      ensures LineTells(DigestLine(items[i]), items[i])
    {
      LineIs(items[i]);
    }
  }

  /** A line that quotes without a pointer quotes the whole blackboard value, and one
      with a pointer shows a real beginning of text. */
  lemma QuoteIsWhole(item: Item, records: seq<Record>, board: Board)
    requires Honest(item, records, board)
    ensures match DigestLine(item)
      case Quote(_, key, text) => key in board(item.id) && text == board(item.id)[key]
      case Teaser(_, key, text) =>
        key in board(item.id) && text <= board(item.id)[key] && IsText(text) && |text| <= CONTENT_PREVIEW
      case Note(_, body) =>
        exists rec :: rec in records && rec.isWake && IsItemOf(item, rec, board)
          && body <= rec.body && (body == rec.body <==> !item.truncated)
  {
    hide IsText, CutLength;
    if item.content.Some? {
      CutIsGood(item.content.value, CONTENT_PREVIEW);
    } else {
      var rec :| rec in records && rec.isWake && IsItemOf(item, rec, board);
      assert DigestLine(item) == Note(item.from, item.body);
    }
  }

  /** A mailbox note is shown whole if and only if it is not flagged as truncated, that
      is if it has at most 64 KiB; a line without a pointer shows the beginning of a
      longer one. */
  lemma NoteIsWhole(rec: Record, board: Board, budget: nat)
    ensures var item := MakeItem(rec, board, budget);
      match DigestLine(item)
      case Note(_, body) =>
        && body <= rec.body && (body == rec.body <==> !item.truncated)
        && (body == rec.body <==> |rec.body| <= ENTRY_CAP)
      case _ => true
  {
    hide IsText, CutLength;
  }

  /** The prompt of a claim: every wake of it is in a line or in the number of those
      left, and every quoted value is whole. */
  lemma PromptAccounts(ids: seq<int>, page: Option<seq<Record>>, board: Board)
    ensures var items := Inline(ids, page, board);
      match PromptOf(|ids|, items)
      case GoList(count) => count == |ids|
      case Digest(count, lines, more) =>
        && count == |ids| == |lines| + more && 1 <= |lines| <= MAX_DIGESTS && |lines| <= |items|
        && forall i :: 0 <= i < |lines| && lines[i].Quote? ==>
          lines[i].key in board(items[i].id) && lines[i].text == board(items[i].id)[lines[i].key]
  {
    hide Honest, Inline, DigestLine;
    InlineIsSound(ids, page, board);
    var items := Inline(ids, page, board);
    forall i | 0 <= i < |items|
      ensures DigestLine(items[i]).Quote? ==>
        DigestLine(items[i]).key in board(items[i].id)
        && DigestLine(items[i]).text == board(items[i].id)[DigestLine(items[i]).key]
    {
      QuoteIsWhole(items[i], page.value, board);
    }
  }
}
