/** Replacing a board's columns in one transaction, statement by statement (aisense-store, board.rs). */
module ColumnReplacement {
  import opened Prelude

  type ColumnId = string
  type BoardId = string
  type CardId = string

  /** `rest` stands for name, kind, limits and position. */
  datatype Col = Col(board: BoardId, slug: string, rest: string)

  datatype Column = Column(id: ColumnId, col: Col)

  datatype Card = Card(column: ColumnId, since: int, updated: int, version: int)

  type Columns = map<ColumnId, Col>
  type Cards = map<CardId, Card>
  type Move = (ColumnId, ColumnId)

  /** Lower-case letters, digits and hyphens, up to 32, not starting with a hyphen. */
  predicate ValidSlug(slug: string) {
    && slug != [] && |slug| <= 32
    && (forall i :: 0 <= i < |slug| ==> 'a' <= slug[i] <= 'z' || '0' <= slug[i] <= '9' || slug[i] == '-')
    && slug[0] != '-'
  }

  // ---- The statements ----

  function MovedCards(cards: Cards, from: ColumnId, to: ColumnId, now: int): Cards {
    map c | c in cards ::
      if cards[c].column == from then Card(to, now, now, cards[c].version + 1) else cards[c]
  }

  /** The foreign key of a card is checked at the end of its own statement. */
  predicate MoveRefused(columns: Columns, cards: Cards, move: Move) {
    move.1 !in columns && exists c :: c in cards && cards[c].column == move.0
  }

  function Temporary(id: ColumnId): string { "~" + id }

  /** The update in the middle: `done` are the rows already changed. */
  function PartlyRenamed(columns: Columns, board: BoardId, done: set<ColumnId>): Columns {
    map id | id in columns ::
      if columns[id].board == board && id in done then columns[id].(slug := Temporary(id)) else columns[id]
  }

  function Renamed(columns: Columns, board: BoardId): Columns {
    PartlyRenamed(columns, board, columns.Keys)
  }

  /** On a known id the row keeps its board. */
  function Upserted(columns: Columns, c: Column): Columns {
    columns[c.id := if c.id in columns then c.col.(board := columns[c.id].board) else c.col]
  }

  ghost predicate UniqueSlugs(columns: Columns) {
    forall a, b :: a in columns && b in columns && a != b && columns[a].board == columns[b].board
        ==> columns[a].slug != columns[b].slug
  }

  predicate SlugTaken(columns: Columns, c: Column) {
    var board := Upserted(columns, c)[c.id].board;
    exists other :: other in columns && other != c.id && columns[other].board == board
        && columns[other].slug == c.col.slug
  }

  function Ids(list: seq<Column>): set<ColumnId> { set c | c in list :: c.id }

  function Trimmed(columns: Columns, board: BoardId, kept: set<ColumnId>): Columns {
    map id | id in columns && (columns[id].board != board || id in kept) :: columns[id]
  }

  predicate StillUsed(columns: Columns, cards: Cards, board: BoardId, kept: set<ColumnId>) {
    exists c :: c in cards && cards[c].column in columns && columns[cards[c].column].board == board
        && cards[c].column !in kept
  }

  // ---- The loops ----

  datatype Failure = NoSuchColumn | DuplicateSlug | ColumnHasCards

  datatype Result<T> = Ok(value: T) | Failed(error: Failure)

  function MoveAll(columns: Columns, cards: Cards, moves: seq<Move>, now: int): Result<Cards>
    decreases |moves|
  {
    if moves == [] then Ok(cards)
    else if MoveRefused(columns, cards, moves[0]) then Failed(NoSuchColumn)
    else MoveAll(columns, MovedCards(cards, moves[0].0, moves[0].1, now), moves[1..], now)
  }

  function UpsertAll(columns: Columns, list: seq<Column>): Result<Columns>
    decreases |list|
  {
    if list == [] then Ok(columns)
    else if SlugTaken(columns, list[0]) then Failed(DuplicateSlug)
    else UpsertAll(Upserted(columns, list[0]), list[1..])
  }

  /** The whole transaction: new tables, or the error that rolls it back. */
  function Replaced(columns: Columns, cards: Cards, board: BoardId, list: seq<Column>, moves: seq<Move>,
                    now: int): Result<(Columns, Cards)> {
    match MoveAll(columns, cards, moves, now)
    case Failed(e) => Failed(e)
    case Ok(moved) =>
      match UpsertAll(Renamed(columns, board), list)
      case Failed(e) => Failed(e)
      case Ok(upserted) =>
        if StillUsed(upserted, moved, board, Ids(list)) then Failed(ColumnHasCards)
        else Ok((Trimmed(upserted, board, Ids(list)), moved))
  }

  class Database {
    var columns: Columns
    var cards: Cards

    constructor (columns: Columns, cards: Cards)
      ensures this.columns == columns && this.cards == cards
    {
      this.columns, this.cards := columns, cards;
    }

    /** Statements run on the transaction's tables; only a commit makes them the database's. */
    method ReplaceColumns(board: BoardId, list: seq<Column>, moves: seq<Move>, now: int)
        returns (error: Option<Failure>)
      modifies this
      ensures match Replaced(old(columns), old(cards), board, list, moves, now)
              case Ok(tables) => error.None? && columns == tables.0 && cards == tables.1
              case Failed(e) => error == Some(e) && columns == old(columns) && cards == old(cards)
    {
      hide MoveRefused, MovedCards, SlugTaken, Upserted, StillUsed, Trimmed, Renamed;
      var txColumns, txCards := columns, cards;
      for i := 0 to |moves|
        invariant columns == old(columns) && cards == old(cards) && txColumns == columns
        invariant MoveAll(columns, txCards, moves[i..], now) == MoveAll(columns, cards, moves, now)
      {
        assert moves[i..][1..] == moves[i + 1..];
        if MoveRefused(txColumns, txCards, moves[i]) { return Some(NoSuchColumn); }
        txCards := MovedCards(txCards, moves[i].0, moves[i].1, now);
      }
      txColumns := Renamed(txColumns, board);
      ghost var start := txColumns;
      for i := 0 to |list|
        invariant columns == old(columns) && cards == old(cards)
        invariant UpsertAll(txColumns, list[i..]) == UpsertAll(start, list)
      {
        assert list[i..][1..] == list[i + 1..];
        if SlugTaken(txColumns, list[i]) { return Some(DuplicateSlug); }
        txColumns := Upserted(txColumns, list[i]);
      }
      if StillUsed(txColumns, txCards, board, Ids(list)) { return Some(ColumnHasCards); }
      columns, cards := Trimmed(txColumns, board, Ids(list)), txCards;
      return None;
    }
  }

  // ---- Slugs ----

  /** What the service hands over: distinct ids and distinct valid slugs, all of this board. */
  ghost predicate GoodList(columns: Columns, board: BoardId, list: seq<Column>) {
    && (forall i, j :: 0 <= i < j < |list| ==> list[i].id != list[j].id && list[i].col.slug != list[j].col.slug)
    && (forall i :: 0 <= i < |list| ==> ValidSlug(list[i].col.slug) && list[i].col.board == board)
    && (forall i :: 0 <= i < |list| && list[i].id in columns ==> columns[list[i].id].board == board)
  }

  ghost predicate GoodTable(columns: Columns) {
    UniqueSlugs(columns) && forall id :: id in columns ==> ValidSlug(columns[id].slug)
  }

  lemma TemporaryIsFresh(id: ColumnId, slug: string)
    requires ValidSlug(slug)
    ensures Temporary(id) != slug
  {
    assert Temporary(id)[0] == '~';
  }

  /** The rename to temporary slugs meets no duplicate, in whatever order its rows are updated. */
  lemma RenamingNeverCollides(columns: Columns, board: BoardId, done: set<ColumnId>)
    requires GoodTable(columns)
    ensures UniqueSlugs(PartlyRenamed(columns, board, done))
  {
    var after := PartlyRenamed(columns, board, done);
    forall a, b | a in after && b in after && a != b && after[a].board == after[b].board
      ensures after[a].slug != after[b].slug
    {
      TemporaryIsFresh(a, columns[b].slug);
      TemporaryIsFresh(b, columns[a].slug);
      assert Temporary(a)[1..] == a && Temporary(b)[1..] == b;
    }
  }

  /** Between two upserts: the first `k` columns are in place, the board's others still temporary. */
  ghost predicate HalfWay(original: Columns, now: Columns, board: BoardId, list: seq<Column>, k: nat)
    requires k <= |list|
  {
    && UniqueSlugs(now)
    && now.Keys == original.Keys + Ids(list[..k])
    && (forall i :: 0 <= i < k ==> list[i].id in now && now[list[i].id] == list[i].col)
    && (forall id :: id in original && id !in Ids(list[..k]) ==>
          now[id] == if original[id].board == board then original[id].(slug := Temporary(id)) else original[id])
  }

  lemma IdsSnoc(list: seq<Column>, k: nat)
    requires k < |list|
    ensures Ids(list[..k + 1]) == Ids(list[..k]) + {list[k].id}
  {
    assert list[..k + 1] == list[..k] + [list[k]];
  }

  lemma NextIdIsNew(original: Columns, board: BoardId, list: seq<Column>, k: nat)
    requires GoodList(original, board, list) && k < |list|
    ensures list[k].id !in Ids(list[..k])
  {
  }

  lemma SlugIsFree(original: Columns, now: Columns, board: BoardId, list: seq<Column>, k: nat, other: ColumnId)
    requires GoodTable(original) && GoodList(original, board, list) && k < |list|
    requires HalfWay(original, now, board, list, k)
    requires other in now && other != list[k].id && now[other].board == board
    ensures now[other].slug != list[k].col.slug
  {
    hide UniqueSlugs;
    if other in Ids(list[..k]) {
      var i :| 0 <= i < k && list[..k][i].id == other;
      assert now[list[i].id] == list[i].col;
    } else {
      hide ValidSlug;
      TemporaryIsFresh(other, list[k].col.slug);
    }
  }

  lemma UpsertStep(original: Columns, now: Columns, board: BoardId, list: seq<Column>, k: nat)
    requires GoodTable(original) && GoodList(original, board, list) && k < |list|
    requires HalfWay(original, now, board, list, k)
    ensures !SlugTaken(now, list[k])
    ensures HalfWay(original, Upserted(now, list[k]), board, list, k + 1)
  {
    hide ValidSlug, GoodTable, GoodList, Upserted, HalfWay;
    var c := list[k];
    UpsertKeepsBoard(original, now, board, list, k);
    forall other | other in now && other != c.id && now[other].board == board ensures now[other].slug != c.col.slug {
      SlugIsFree(original, now, board, list, k, other);
    }
    UpsertAdvances(original, now, board, list, k);
  }

  lemma UpsertAdvances(original: Columns, now: Columns, board: BoardId, list: seq<Column>, k: nat)
    requires GoodList(original, board, list) && k < |list| && HalfWay(original, now, board, list, k)
    requires list[k].col.board == board
    requires forall other ::
               other in now && other != list[k].id && now[other].board == board ==> now[other].slug != list[k].col.slug
    ensures HalfWay(original, now[list[k].id := list[k].col], board, list, k + 1)
  {
    hide ValidSlug, Ids, UniqueSlugs, GoodList;
    IdsSnoc(list, k);
    NextIdIsNew(original, board, list, k);
    UniqueWith(now, list[k]);
    InPlaceAfter(original, now, board, list, k);
  }

  lemma InPlaceAfter(original: Columns, now: Columns, board: BoardId, list: seq<Column>, k: nat)
    requires GoodList(original, board, list) && k < |list|
    requires forall i :: 0 <= i < k ==> list[i].id in now && now[list[i].id] == list[i].col
    ensures var after := now[list[k].id := list[k].col];
            forall i :: 0 <= i < k + 1 ==> list[i].id in after && after[list[i].id] == list[i].col
  {
    hide ValidSlug;
  }

  lemma UniqueWith(now: Columns, c: Column)
    requires UniqueSlugs(now)
    requires forall other ::
               other in now && other != c.id && now[other].board == c.col.board ==> now[other].slug != c.col.slug
    ensures UniqueSlugs(now[c.id := c.col])
  {
  }

  lemma UpsertKeepsBoard(original: Columns, now: Columns, board: BoardId, list: seq<Column>, k: nat)
    requires GoodList(original, board, list) && k < |list|
    requires HalfWay(original, now, board, list, k)
    ensures Upserted(now, list[k]) == now[list[k].id := list[k].col] && list[k].col.board == board
  {
    hide ValidSlug, UniqueSlugs;
    NextIdIsNew(original, board, list, k);
  }

  lemma {:induction false} UpsertsGoThrough(original: Columns, now: Columns, board: BoardId, list: seq<Column>, k: nat)
    requires GoodTable(original) && GoodList(original, board, list) && k <= |list|
    requires HalfWay(original, now, board, list, k)
    ensures var r := UpsertAll(now, list[k..]); r.Ok? && HalfWay(original, r.value, board, list, |list|)
    decreases |list| - k
  {
    hide HalfWay, GoodTable, GoodList, SlugTaken, Upserted;
    if k < |list| {
      UpsertStep(original, now, board, list, k);
      assert list[k..][0] == list[k] && list[k..][1..] == list[k + 1..];
      UpsertsGoThrough(original, Upserted(now, list[k]), board, list, k + 1);
    }
  }

  lemma RenamedIsHalfWay(columns: Columns, board: BoardId, list: seq<Column>)
    requires GoodTable(columns)
    ensures HalfWay(columns, Renamed(columns, board), board, list, 0)
  {
    RenamingNeverCollides(columns, board, columns.Keys);
    assert Ids(list[..0]) == {};
  }

  /** Slugs never collide on the way, even when columns swap them. */
  lemma SlugsNeverCollide(columns: Columns, board: BoardId, list: seq<Column>)
    requires GoodTable(columns) && GoodList(columns, board, list)
    ensures var r := UpsertAll(Renamed(columns, board), list);
            r.Ok? && HalfWay(columns, r.value, board, list, |list|)
  {
    RenamedIsHalfWay(columns, board, list);
    assert list[0..] == list;
    UpsertsGoThrough(columns, Renamed(columns, board), board, list, 0);
  }

  /** A known column is rewritten where it is: whatever the list says, it stays on its board, and is not lost. */
  lemma {:induction false} UpsertsKeepTheBoard(columns: Columns, list: seq<Column>)
    ensures UpsertAll(columns, list).Ok? ==>
              forall id :: id in columns ==>
                id in UpsertAll(columns, list).value && UpsertAll(columns, list).value[id].board == columns[id].board
    decreases |list|
  {
    hide SlugTaken;
    if list != [] {
      UpsertsKeepTheBoard(Upserted(columns, list[0]), list[1..]);
    }
  }

  /** Whatever list it is given, the transaction never leaves two columns of a board with one slug. */
  lemma {:induction false} UpsertsKeepSlugsUnique(columns: Columns, list: seq<Column>)
    requires UniqueSlugs(columns)
    ensures UpsertAll(columns, list).Ok? ==> UniqueSlugs(UpsertAll(columns, list).value)
    decreases |list|
  {
    hide UniqueSlugs, SlugTaken, Upserted;
    if list != [] && !SlugTaken(columns, list[0]) {
      UpsertKeepsSlugsUnique(columns, list[0]);
      UpsertsKeepSlugsUnique(Upserted(columns, list[0]), list[1..]);
    }
  }

  lemma UpsertKeepsSlugsUnique(columns: Columns, c: Column)
    requires UniqueSlugs(columns) && !SlugTaken(columns, c)
    ensures UniqueSlugs(Upserted(columns, c))
  {
  }

  /** So two of its columns with one slug abort it. */
  lemma DuplicateSlugsAbort(columns: Columns, cards: Cards, board: BoardId, list: seq<Column>, moves: seq<Move>,
                            now: int, i: nat, j: nat)
    requires GoodTable(columns) && i < j < |list| && list[i].id != list[j].id
    requires list[i].col.slug == list[j].col.slug
    requires forall k :: 0 <= k < |list| ==>
               list[k].col.board == board && (list[k].id in columns ==> columns[list[k].id].board == board)
    requires forall k :: 0 <= k < |list| && k != i ==> list[k].id != list[i].id
    requires forall k :: 0 <= k < |list| && k != j ==> list[k].id != list[j].id
    ensures Replaced(columns, cards, board, list, moves, now).Failed?
  {
    var start := Renamed(columns, board);
    RenamingNeverCollides(columns, board, columns.Keys);
    UpsertsKeepSlugsUnique(start, list);
    if UpsertAll(start, list).Ok? {
      StaysUpserted(start, board, list, i);
      StaysUpserted(start, board, list, j);
    }
    hide MoveRefused, MovedCards, StillUsed, Trimmed;
  }

  lemma {:induction false} StaysUpserted(columns: Columns, board: BoardId, list: seq<Column>, i: nat)
    requires i < |list| && UpsertAll(columns, list).Ok?
    requires list[i].col.board == board && (list[i].id in columns ==> columns[list[i].id].board == board)
    requires forall k :: 0 <= k < |list| && k != i ==> list[k].id != list[i].id
    ensures list[i].id in UpsertAll(columns, list).value && UpsertAll(columns, list).value[list[i].id] == list[i].col
    decreases |list|
  {
    hide SlugTaken;
    var next := Upserted(columns, list[0]);
    if i == 0 {
      forall k | 0 <= k < |list| - 1 ensures list[1..][k].id != list[0].id { assert list[1..][k] == list[k + 1]; }
      UntouchedByUpserts(next, list[1..], list[0].id);
    } else {
      forall k | 0 <= k < |list| - 1 && k != i - 1 ensures list[1..][k].id != list[i].id {
        assert list[1..][k] == list[k + 1];
      }
      StaysUpserted(next, board, list[1..], i - 1);
    }
  }

  lemma {:induction false} UntouchedByUpserts(columns: Columns, list: seq<Column>, id: ColumnId)
    requires id in columns && UpsertAll(columns, list).Ok?
    requires forall k :: 0 <= k < |list| ==> list[k].id != id
    ensures id in UpsertAll(columns, list).value && UpsertAll(columns, list).value[id] == columns[id]
    decreases |list|
  {
    hide SlugTaken;
    if list != [] {
      assert forall k :: 0 <= k < |list| - 1 ==> list[1..][k] == list[k + 1];
      UntouchedByUpserts(Upserted(columns, list[0]), list[1..], id);
    }
  }

  // ---- Cards ----

  /** Where the moves take a card, one after another. */
  function Destination(moves: seq<Move>, column: ColumnId): ColumnId {
    if moves == [] then column
    else Destination(moves[1..], if column == moves[0].0 then moves[0].1 else column)
  }

  function Hops(moves: seq<Move>, column: ColumnId): nat {
    if moves == [] then 0
    else if column == moves[0].0 then 1 + Hops(moves[1..], moves[0].1)
    else Hops(moves[1..], column)
  }

  /** Every hop some card makes leads to a column that exists before the transaction. */
  ghost predicate TargetsExist(columns: Columns, cards: Cards, moves: seq<Move>) {
    forall c, k :: c in cards && 0 <= k < |moves| && Destination(moves[..k], cards[c].column) == moves[k].0
        ==> moves[k].1 in columns
  }

  function Carried(card: Card, moves: seq<Move>, now: int): Card {
    if Hops(moves, card.column) == 0 then card
    else Card(Destination(moves, card.column), now, now, card.version + Hops(moves, card.column))
  }

  lemma {:induction false} NoHopsStays(moves: seq<Move>, column: ColumnId)
    ensures Hops(moves, column) == 0 ==> Destination(moves, column) == column
    decreases |moves|
  {
    if moves != [] {
      NoHopsStays(moves[1..], if column == moves[0].0 then moves[0].1 else column);
    }
  }

  lemma {:induction false} MovesCompose(columns: Columns, cards: Cards, moves: seq<Move>, now: int)
    ensures MoveAll(columns, cards, moves, now).Ok? <==> TargetsExist(columns, cards, moves)
    ensures MoveAll(columns, cards, moves, now).Ok? ==>
              var moved := MoveAll(columns, cards, moves, now).value;
              moved.Keys == cards.Keys && forall c :: c in cards ==> moved[c] == Carried(cards[c], moves, now)
    decreases |moves|
  {
    if moves != [] {
      var next := MovedCards(cards, moves[0].0, moves[0].1, now);
      MovesCompose(columns, next, moves[1..], now);
      TargetsUnfold(columns, cards, moves, now);
      hide MoveRefused, TargetsExist;
      if MoveAll(columns, cards, moves, now).Ok? {
        forall c | c in cards ensures Carried(next[c], moves[1..], now) == Carried(cards[c], moves, now) {
          NoHopsStays(moves[1..], next[c].column);
        }
      }
    }
  }

  lemma TargetsUnfold(columns: Columns, cards: Cards, moves: seq<Move>, now: int)
    requires moves != []
    ensures TargetsExist(columns, cards, moves)
            <==> && !MoveRefused(columns, cards, moves[0])
                 && TargetsExist(columns, MovedCards(cards, moves[0].0, moves[0].1, now), moves[1..])
  {
    var next := MovedCards(cards, moves[0].0, moves[0].1, now);
    var rest := moves[1..];
    forall c, k | c in cards && 0 < k < |moves|
      ensures Destination(moves[..k], cards[c].column) == Destination(rest[..k - 1], next[c].column)
    {
      assert moves[..k][0] == moves[0] && moves[..k][1..] == rest[..k - 1];
    }
    if TargetsExist(columns, cards, moves) {
      forall c | c in cards && cards[c].column == moves[0].0 ensures moves[0].1 in columns {
        assert Destination(moves[..0], cards[c].column) == moves[0].0;
      }
      forall c, k | c in next && 0 <= k < |rest| && Destination(rest[..k], next[c].column) == rest[k].0
          ensures rest[k].1 in columns {
        assert Destination(moves[..k + 1], cards[c].column) == moves[k + 1].0;
      }
    }
    if !MoveRefused(columns, cards, moves[0]) && TargetsExist(columns, next, rest) {
      forall c, k | c in cards && 0 <= k < |moves| && Destination(moves[..k], cards[c].column) == moves[k].0
          ensures moves[k].1 in columns {
        if k > 0 {
          assert Destination(rest[..k - 1], next[c].column) == rest[k - 1].0;
        } else {
          assert cards[c].column == moves[0].0;
        }
      }
    }
  }

  // ---- The transaction ----

  ghost predicate EveryCardHasAColumn(columns: Columns, cards: Cards) {
    forall c :: c in cards ==> cards[c].column in columns
  }

  /** No card of the board is left in a column that goes away. */
  ghost predicate NoneLeftBehind(columns: Columns, cards: Cards, board: BoardId, list: seq<Column>, moves: seq<Move>) {
    forall c :: c in cards ==>
      var to := Destination(moves, cards[c].column);
      to in columns && columns[to].board == board ==> to in Ids(list)
  }

  /** The board's columns are the list, the other boards' are untouched, and every card is where its moves took it. */
  ghost predicate Conserved(columns: Columns, cards: Cards, board: BoardId, list: seq<Column>, moves: seq<Move>,
                            now: int, columns': Columns, cards': Cards) {
    && UniqueSlugs(columns')
    && (forall id :: id in columns' && columns'[id].board == board <==> id in Ids(list))
    && (forall i :: 0 <= i < |list| ==> list[i].id in columns' && columns'[list[i].id] == list[i].col)
    && (forall id :: id in columns && columns[id].board != board ==> id in columns' && columns'[id] == columns[id])
    && (forall id :: id in columns' && columns'[id].board != board ==> id in columns)
    && cards'.Keys == cards.Keys
    && (forall c :: c in cards ==> cards'[c] == Carried(cards[c], moves, now))
    && EveryCardHasAColumn(columns', cards')
  }

  lemma IdsOfList(list: seq<Column>, i: nat)
    requires i < |list|
    ensures list[i].id in Ids(list)
  {
    assert list[i] in list;
  }

  lemma TrimmedColumns(columns: Columns, upserted: Columns, board: BoardId, list: seq<Column>)
    requires GoodList(columns, board, list) && HalfWay(columns, upserted, board, list, |list|)
    ensures var columns' := Trimmed(upserted, board, Ids(list));
            && UniqueSlugs(columns')
            && (forall id :: id in columns' && columns'[id].board == board <==> id in Ids(list))
            && (forall i :: 0 <= i < |list| ==> list[i].id in columns' && columns'[list[i].id] == list[i].col)
            && (forall id ::
                  id in columns && columns[id].board != board ==> id in columns' && columns'[id] == columns[id])
            && (forall id :: id in columns' && columns'[id].board != board ==> id in columns)
  {
    assert list[..|list|] == list;
    forall i | 0 <= i < |list| ensures list[i].id in Ids(list) { IdsOfList(list, i); }
    forall id | id in Ids(list)
        ensures id in upserted && upserted[id].board == board && (id in columns ==> columns[id].board == board) {
      var i :| 0 <= i < |list| && list[i].id == id;
    }
  }

  /** When the transaction commits, and what it then has done; otherwise nothing changed at all. */
  lemma ReplacementConservesCards(columns: Columns, cards: Cards, board: BoardId, list: seq<Column>, moves: seq<Move>,
                                  now: int)
    requires GoodTable(columns) && GoodList(columns, board, list) && EveryCardHasAColumn(columns, cards)
    ensures Replaced(columns, cards, board, list, moves, now).Ok?
            <==> TargetsExist(columns, cards, moves) && NoneLeftBehind(columns, cards, board, list, moves)
    ensures Replaced(columns, cards, board, list, moves, now).Ok? ==>
              var tables := Replaced(columns, cards, board, list, moves, now).value;
              Conserved(columns, cards, board, list, moves, now, tables.0, tables.1)
  {
    hide *;
    MovesCompose(columns, cards, moves, now);
    SlugsNeverCollide(columns, board, list);
    var upserted := UpsertAll(Renamed(columns, board), list).value;
    if TargetsExist(columns, cards, moves) {
      var moved := MoveAll(columns, cards, moves, now).value;
      CardsStayOnColumns(columns, cards, moves, now, moved);
      LeftBehindIsStillUsed(columns, cards, board, list, moves, now, upserted, moved);
      AfterTheLoops(columns, cards, board, list, moves, now, moved, upserted);
      if !StillUsed(upserted, moved, board, Ids(list)) {
        TrimmedColumns(columns, upserted, board, list);
        SurvivorsHaveColumns(columns, upserted, moved, board, list);
        ConservedIf(columns, cards, board, list, moves, now, Trimmed(upserted, board, Ids(list)), moved);
      }
    } else {
      FailsWithMoves(columns, cards, board, list, moves, now);
    }
  }

  lemma AfterTheLoops(columns: Columns, cards: Cards, board: BoardId, list: seq<Column>, moves: seq<Move>, now: int,
                      moved: Cards, upserted: Columns)
    requires MoveAll(columns, cards, moves, now) == Ok(moved)
             && UpsertAll(Renamed(columns, board), list) == Ok(upserted)
    ensures Replaced(columns, cards, board, list, moves, now)
            == if StillUsed(upserted, moved, board, Ids(list)) then Failed(ColumnHasCards)
               else Ok((Trimmed(upserted, board, Ids(list)), moved))
  {
    hide MoveAll, UpsertAll, Renamed, StillUsed, Trimmed, Ids;
  }

  lemma FailsWithMoves(columns: Columns, cards: Cards, board: BoardId, list: seq<Column>, moves: seq<Move>, now: int)
    requires !MoveAll(columns, cards, moves, now).Ok?
    ensures !Replaced(columns, cards, board, list, moves, now).Ok?
  {
    hide MoveAll, UpsertAll, Renamed, StillUsed, Trimmed, Ids;
  }

  lemma ConservedIf(columns: Columns, cards: Cards, board: BoardId, list: seq<Column>, moves: seq<Move>, now: int,
                    columns': Columns, cards': Cards)
    requires UniqueSlugs(columns')
    requires forall id :: id in columns' && columns'[id].board == board <==> id in Ids(list)
    requires forall i :: 0 <= i < |list| ==> list[i].id in columns' && columns'[list[i].id] == list[i].col
    requires forall id :: id in columns && columns[id].board != board ==> id in columns' && columns'[id] == columns[id]
    requires forall id :: id in columns' && columns'[id].board != board ==> id in columns
    requires cards'.Keys == cards.Keys && (forall c :: c in cards ==> cards'[c] == Carried(cards[c], moves, now))
    requires EveryCardHasAColumn(columns', cards')
    ensures Conserved(columns, cards, board, list, moves, now, columns', cards')
  {
    hide UniqueSlugs, Ids, Carried, EveryCardHasAColumn;
  }

  lemma {:induction false} HopsLandOnColumns(columns: Columns, cards: Cards, c: CardId, moves: seq<Move>, k: nat)
    requires TargetsExist(columns, cards, moves) && c in cards && cards[c].column in columns && k <= |moves|
    ensures Destination(moves[..k], cards[c].column) in columns
    decreases k
  {
    if k > 0 {
      HopsLandOnColumns(columns, cards, c, moves, k - 1);
      DestinationSnoc(moves[..k - 1], moves[k - 1], cards[c].column);
      assert moves[..k] == moves[..k - 1] + [moves[k - 1]];
    }
  }

  lemma {:induction false} DestinationSnoc(moves: seq<Move>, last: Move, column: ColumnId)
    ensures var before := Destination(moves, column);
            Destination(moves + [last], column) == if before == last.0 then last.1 else before
    decreases |moves|
  {
    if moves == [] {
      assert [] + [last] == [last] && [last][1..] == [];
    } else {
      assert (moves + [last])[0] == moves[0] && (moves + [last])[1..] == moves[1..] + [last];
      DestinationSnoc(moves[1..], last, if column == moves[0].0 then moves[0].1 else column);
    }
  }

  lemma CardsStayOnColumns(columns: Columns, cards: Cards, moves: seq<Move>, now: int, moved: Cards)
    requires TargetsExist(columns, cards, moves) && EveryCardHasAColumn(columns, cards)
    requires moved.Keys == cards.Keys && forall c :: c in cards ==> moved[c] == Carried(cards[c], moves, now)
    ensures forall c :: c in cards ==> moved[c].column == Destination(moves, cards[c].column)
    ensures EveryCardHasAColumn(columns, moved)
  {
    forall c | c in cards ensures moved[c].column == Destination(moves, cards[c].column) && moved[c].column in columns {
      NoHopsStays(moves, cards[c].column);
      HopsLandOnColumns(columns, cards, c, moves, |moves|);
      assert moves[..|moves|] == moves;
    }
  }

  lemma LeftBehindIsStillUsed(columns: Columns, cards: Cards, board: BoardId, list: seq<Column>, moves: seq<Move>,
                              now: int, upserted: Columns, moved: Cards)
    requires HalfWay(columns, upserted, board, list, |list|) && EveryCardHasAColumn(columns, moved)
    requires moved.Keys == cards.Keys
    requires forall c :: c in cards ==> moved[c].column == Destination(moves, cards[c].column)
    ensures StillUsed(upserted, moved, board, Ids(list)) <==> !NoneLeftBehind(columns, cards, board, list, moves)
  {
    assert list[..|list|] == list;
    hide UniqueSlugs, Destination;
    if !NoneLeftBehind(columns, cards, board, list, moves) {
      var c :| c in cards && Destination(moves, cards[c].column) in columns
               && columns[Destination(moves, cards[c].column)].board == board
                   && Destination(moves, cards[c].column) !in Ids(list);
      assert moved[c].column in upserted && upserted[moved[c].column].board == board;
    }
    if StillUsed(upserted, moved, board, Ids(list)) {
      var c :| c in moved && moved[c].column in upserted && upserted[moved[c].column].board == board
          && moved[c].column !in Ids(list);
      assert columns[moved[c].column].board == board;
    }
  }

  lemma SurvivorsHaveColumns(columns: Columns, upserted: Columns, moved: Cards, board: BoardId, list: seq<Column>)
    requires HalfWay(columns, upserted, board, list, |list|) && EveryCardHasAColumn(columns, moved)
    requires !StillUsed(upserted, moved, board, Ids(list))
    ensures EveryCardHasAColumn(Trimmed(upserted, board, Ids(list)), moved)
  {
  }

  /** The moves run before the inserts: a card cannot be moved to a column the same call creates. */
  lemma MovingToANewColumnAborts(columns: Columns, cards: Cards, board: BoardId, list: seq<Column>, from: ColumnId,
                                 to: ColumnId, card: CardId, now: int)
    requires GoodTable(columns) && GoodList(columns, board, list) && EveryCardHasAColumn(columns, cards)
    requires card in cards && cards[card].column == from && to !in columns
    ensures Replaced(columns, cards, board, list, [(from, to)], now) == Failed(NoSuchColumn)
  {
    var moves := [(from, to)];
    assert MoveRefused(columns, cards, moves[0]);
  }
}
