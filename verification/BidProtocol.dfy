/**
 * The auction protocol of server/main.cpp as a state machine of interleaved handlers.
 */
module BidProtocol {

  import opened Wrappers

  type Tid = nat
  type Client = nat

  /** `starting` and `current` are the columns starting_price and current_price: DECIMAL(10,2), so
      what is stored is a number of cents. */
  datatype Item = Item(starting: int, current: int, sold: bool)

  /** A bid as requested; the row stored for it holds `Cents(bid)`. */
  datatype Bid = Bid(user: int, item: int, amount: real, seller: int)

  datatype Sale = Sale(item: int, buyer: int, seller: int, price: int)

  datatype Message = Message(item: int, newBid: real)

  // ----- Amounts -----

  /** What a DECIMAL(10,2) column keeps of an amount: the nearest cent, halves away from zero. */
  function ToCents(a: real): int {
    if a >= 0.0 then (a * 100.0 + 0.5).Floor else -(0.5 - a * 100.0).Floor
  }

  function Cents(b: Bid): int { ToCents(b.amount) }

  /** Ten digits, two of them after the point; anything longer is an error. */
  predicate FitsColumn(cents: int) { -10_000_000_000 < cents < 10_000_000_000 }

  /** The amount passes the handler's comparison with a stored price. */
  predicate Above(a: real, price: int) { a * 100.0 > price as real }

  predicate WholeCents(a: real) { (a * 100.0).Floor as real == a * 100.0 }

  /** Rounding never takes an amount below a price it was above. */
  lemma AboveRounds(a: real, price: int)
    requires Above(a, price)
    ensures ToCents(a) >= price
  {
  }

  /** The stored amount is above the price too exactly when the bid is half a cent above it. */
  lemma RaisesExactly(a: real, price: int)
    requires Above(a, price) && a > 0.0
    ensures ToCents(a) > price <==> a * 100.0 >= price as real + 0.5
  {
  }

  lemma WholeCentsRaise(a: real, price: int)
    requires Above(a, price) && WholeCents(a)
    ensures ToCents(a) > price && ToCents(a) as real == a * 100.0
  {
    var n := (a * 100.0).Floor;
    if a >= 0.0 {
      assert (n as real + 0.5).Floor == n;
    } else {
      assert (0.5 - n as real).Floor == -n;
    }
  }

  // ----- States and steps -----

  /** Where a handler is. */
  datatype Pc =
    | Idle
    | BidParsed(bid: Bid)                       // holds bid_mutex, request is well-formed
    | BidBegun(bid: Bid)                        // its transaction is open
    | PriceRead(bid: Bid, price: int)           // current_price has been selected
    | BidAccepted(bid: Bid, price: int)         // the bid is above it
    | BidWritten(bid: Bid, price: int)          // INSERT and UPDATE are pending in the transaction
    | BidCommitted(bid: Bid)                    // the transaction is closed
    | Broadcasting(bid: Bid, todo: seq<Client>) // holds ws_mutex too
    | BroadcastDone(bid: Bid)
    | SaleBegun(item: int)                      // the sale's transaction is open
    | TopRead(top: Bid)                         // the highest bid has been selected
    | Done(code: int)                           // the response has been sent

  /** What is committed in the database. */
  datatype Tables = Tables(
    items: map<int, Item>, bids: seq<Bid>, sales: seq<Sale>,
    soldAt: seq<nat>) // how many bids had been committed at each sale's commit

  /** The websocket clients and what they were told. */
  datatype Feed = Feed(
    clients: seq<Client>,
    inbox: map<Client, seq<Message>>, // what each client was sent since it last opened
    joined: map<Client, nat>,         // how many bids had been broadcast when it opened
    sent: nat)                        // how many bids have been broadcast completely

  /** What the handlers of /place_bid, /complete_transaction and /create_auction and the callbacks of
      /ws/bids share: two mutexes, the one database connection, its tables and the client vector. A
      transaction's writes appear at its commit, all at once, or not at all; the connection has room
      for one transaction, and beginning a second one throws. The program's one worker finishes a
      handler before it starts the next; nothing here needs that, the handlers may interleave. */
  datatype State = State(
    db: Tables, feed: Feed,
    bidMutex: Option<Tid>, wsMutex: Option<Tid>,
    txn: Option<Tid>, // whose transaction is open on the connection
    pcs: map<Tid, Pc>)

  const INITIAL := State(Tables(map[], [], [], []), Feed([], map[], map[], 0), None, None, None, map[])

  datatype Event =
    | CreateAuction(id: int, starting: real)
    | LockBid(t: Tid)
    | ParseBid(t: Tid, bid: Bid)
    | FailBid(t: Tid, code: int) // malformed request, exception or rollback before the commit
    | BeginBid(t: Tid)
    | ReadPrice(t: Tid)
    | CheckPrice(t: Tid)
    | WriteBid(t: Tid)
    | CommitBid(t: Tid)
    | LockWs(t: Tid)
    | SendNext(t: Tid)
    | UnlockWs(t: Tid)
    | UnlockBid(t: Tid)
    | BeginSale(t: Tid, item: int)
    | ReadTop(t: Tid, row: Option<Bid>) // the database picks the row
    | CommitSale(t: Tid)
    | FailSale(t: Tid)
    | Open(c: Client)
    | Close(c: Client)

  function PcOf(s: State, t: Tid): Pc { if t in s.pcs then s.pcs[t] else Idle }

  /** The handler is between taking and releasing bid_mutex. */
  predicate InBidSection(pc: Pc) { BeforeCommit(pc) || pc.BidCommitted? || pc.Broadcasting? || pc.BroadcastDone? }

  predicate BeforeCommit(pc: Pc) { pc.BidParsed? || InBidTxn(pc) }

  predicate InBidTxn(pc: Pc) { pc.BidBegun? || pc.PriceRead? || pc.BidAccepted? || pc.BidWritten? }

  predicate InSaleTxn(pc: Pc) { pc.SaleBegun? || pc.TopRead? }

  predicate InTxn(pc: Pc) { InBidTxn(pc) || InSaleTxn(pc) }

  /** The guard the handler applies to a request. */
  predicate ValidRequest(b: Bid) { b.user > 0 && b.item > 0 && b.amount > 0.0 }

  function OnItem(bids: seq<Bid>, item: int): seq<Bid> {
    if bids == [] then []
    else OnItem(bids[..|bids| - 1], item) + if bids[|bids| - 1].item == item then [bids[|bids| - 1]] else []
  }

  /** A row that `ORDER BY bid_amount DESC LIMIT 1` may return. */
  predicate IsTop(bids: seq<Bid>, item: int, b: Bid) {
    b in bids && b.item == item && forall c :: c in bids && c.item == item ==> Cents(c) <= Cents(b)
  }

  /** The columns of the constraint unique_bid agree. */
  predicate SameKey(a: Bid, b: Bid) { a.user == b.user && a.item == b.item && Cents(a) == Cents(b) }

  /** The INSERT into bids succeeds. */
  predicate Insertable(bids: seq<Bid>, b: Bid) {
    FitsColumn(Cents(b)) && forall c :: c in bids ==> !SameKey(c, b)
  }

  function Without(cs: seq<Client>, c: Client): (r: seq<Client>)
    ensures forall x :: x in r <==> x in cs && x != c
    ensures Distinct(cs) ==> Distinct(r)
  {
    if cs == [] then []
    else
      var rest := Without(cs[1..], c);
      assert Distinct(cs) ==> Distinct(cs[1..]) && cs[0] !in cs[1..];
      if cs[0] == c then rest else [cs[0]] + rest
  }

  predicate Distinct(cs: seq<Client>) { forall i, j :: 0 <= i < j < |cs| ==> cs[i] != cs[j] }

  predicate Enabled(s: State, e: Event) {
    match e
    case CreateAuction(id, p) => s.txn.None? && id !in s.db.items && FitsColumn(ToCents(p))
    case LockBid(t) => PcOf(s, t).Idle? && s.bidMutex.None?
    case ParseBid(t, b) => s.bidMutex == Some(t) && PcOf(s, t).Idle? && ValidRequest(b)
    case FailBid(t, code) => s.bidMutex == Some(t) && code != 200 && (PcOf(s, t).Idle? || BeforeCommit(PcOf(s, t)))
    case BeginBid(t) => PcOf(s, t).BidParsed?
    case ReadPrice(t) => PcOf(s, t).BidBegun?
    case CheckPrice(t) => PcOf(s, t).PriceRead?
    case WriteBid(t) => PcOf(s, t).BidAccepted?
    case CommitBid(t) => PcOf(s, t).BidWritten?
    case LockWs(t) => PcOf(s, t).BidCommitted? && s.wsMutex.None?
    case SendNext(t) => PcOf(s, t).Broadcasting? && PcOf(s, t).todo != []
    case UnlockWs(t) => PcOf(s, t).Broadcasting? && PcOf(s, t).todo == []
    case UnlockBid(t) => PcOf(s, t).BroadcastDone?
    case BeginSale(t, _) => PcOf(s, t).Idle? && s.bidMutex != Some(t)
    case ReadTop(t, row) =>
      && PcOf(s, t).SaleBegun?
      && var item := PcOf(s, t).item;
         if row.Some? then IsTop(s.db.bids, item, row.value) else OnItem(s.db.bids, item) == []
    case CommitSale(t) => PcOf(s, t).TopRead?
    case FailSale(t) => InSaleTxn(PcOf(s, t))
    case Open(c) => s.wsMutex.None? && c !in s.feed.clients
    case Close(c) => s.wsMutex.None?
  }

  function SetPc(s: State, t: Tid, pc: Pc): State { s.(pcs := s.pcs[t := pc]) }

  /** The transaction of `t`, if it has one, is closed. */
  function Release(s: State, t: Tid): State { if s.txn == Some(t) then s.(txn := None) else s }

  /** The response is sent: lock_guard releases bid_mutex, an open transaction is rolled back. */
  function Answer(s: State, t: Tid, code: int): State {
    SetPc(Release(s, t), t, Done(code)).(bidMutex := None)
  }

  /** The same for a sale, which holds no mutex. */
  function AnswerSale(s: State, t: Tid, code: int): State { SetPc(Release(s, t), t, Done(code)) }

  /** UPDATE items SET current_price: no row when there is no such item. */
  function SetPrice(items: map<int, Item>, id: int, price: int): map<int, Item> {
    if id in items then items[id := items[id].(current := price)] else items
  }

  function SetSold(items: map<int, Item>, id: int): map<int, Item> {
    if id in items then items[id := items[id].(sold := true)] else items
  }

  /** The commits. */
  function AddItem(db: Tables, id: int, price: int): Tables {
    db.(items := db.items[id := Item(price, price, false)])
  }

  function AddBid(db: Tables, b: Bid): Tables {
    db.(bids := db.bids + [b], items := SetPrice(db.items, b.item, Cents(b)))
  }

  function AddSale(db: Tables, b: Bid): Tables {
    db.(items := SetSold(db.items, b.item), soldAt := db.soldAt + [|db.bids|],
        sales := db.sales + [Sale(b.item, b.user, b.seller, Cents(b))])
  }

  function Send(feed: Feed, c: Client, m: Message): Feed {
    feed.(inbox := feed.inbox[c := (if c in feed.inbox then feed.inbox[c] else []) + [m]])
  }

  function Join(feed: Feed, c: Client): Feed {
    feed.(clients := feed.clients + [c], inbox := feed.inbox[c := []], joined := feed.joined[c := feed.sent])
  }

  function Apply(s: State, e: Event): State
    requires Enabled(s, e)
  {
    match e
    case CreateAuction(id, p) => s.(db := AddItem(s.db, id, ToCents(p)))
    case LockBid(t) => s.(bidMutex := Some(t))
    case ParseBid(t, b) => SetPc(s, t, BidParsed(b))
    case FailBid(t, code) => Answer(s, t, code)
    case BeginBid(t) =>
      if s.txn.Some? then Answer(s, t, 500) else SetPc(s, t, BidBegun(PcOf(s, t).bid)).(txn := Some(t))
    case ReadPrice(t) =>
      var b := PcOf(s, t).bid;
      if b.item !in s.db.items then Answer(s, t, 404) else SetPc(s, t, PriceRead(b, s.db.items[b.item].current))
    case CheckPrice(t) =>
      var pc := PcOf(s, t);
      if Above(pc.bid.amount, pc.price) then SetPc(s, t, BidAccepted(pc.bid, pc.price)) else Answer(s, t, 400)
    case WriteBid(t) =>
      var pc := PcOf(s, t);
      if Insertable(s.db.bids, pc.bid) then SetPc(s, t, BidWritten(pc.bid, pc.price)) else Answer(s, t, 500)
    case CommitBid(t) =>
      var b := PcOf(s, t).bid;
      SetPc(Release(s, t), t, BidCommitted(b)).(db := AddBid(s.db, b))
    case LockWs(t) => SetPc(s, t, Broadcasting(PcOf(s, t).bid, s.feed.clients)).(wsMutex := Some(t))
    case SendNext(t) =>
      var pc := PcOf(s, t);
      SetPc(s, t, Broadcasting(pc.bid, pc.todo[1..]))
        .(feed := Send(s.feed, pc.todo[0], Message(pc.bid.item, pc.bid.amount)))
    case UnlockWs(t) =>
      SetPc(s, t, BroadcastDone(PcOf(s, t).bid)).(wsMutex := None, feed := s.feed.(sent := s.feed.sent + 1))
    case UnlockBid(t) => Answer(s, t, 200)
    case BeginSale(t, item) =>
      if s.txn.Some? then AnswerSale(s, t, 500) else SetPc(s, t, SaleBegun(item)).(txn := Some(t))
    case ReadTop(t, row) => if row.None? then AnswerSale(s, t, 404) else SetPc(s, t, TopRead(row.value))
    case CommitSale(t) => AnswerSale(s, t, 200).(db := AddSale(s.db, PcOf(s, t).top))
    case FailSale(t) => AnswerSale(s, t, 500)
    case Open(c) => s.(feed := Join(s.feed, c))
    case Close(c) => s.(feed := s.feed.(clients := Without(s.feed.clients, c)))
  }

  /** A run: every event is enabled where it happens. */
  predicate IsRun(s: State, es: seq<Event>)
    decreases |es|
  {
    es == [] || (Enabled(s, es[0]) && IsRun(Apply(s, es[0]), es[1..]))
  }

  function After(s: State, es: seq<Event>): State
    requires IsRun(s, es)
    decreases |es|
  {
    if es == [] then s else After(Apply(s, es[0]), es[1..])
  }

  // ----- Invariants -----

  /** bid_mutex is held by exactly the thread in the bid section. */
  ghost predicate Locked(s: State) {
    && (forall t: Tid :: InBidSection(PcOf(s, t)) ==> s.bidMutex == Some(t))
    && (forall t: Tid :: PcOf(s, t).Broadcasting? ==> s.wsMutex == Some(t))
    && (s.wsMutex.Some? ==> PcOf(s, s.wsMutex.value).Broadcasting?)
    && (s.bidMutex.Some? ==> InBidSection(PcOf(s, s.bidMutex.value)) || PcOf(s, s.bidMutex.value).Idle?)
  }

  /** The open transaction belongs to exactly the handler inside one. */
  ghost predicate OneTxn(s: State) {
    forall t: Tid :: InTxn(PcOf(s, t)) <==> s.txn == Some(t)
  }

  /** What a handler has read is still current: nobody else can commit a bid. */
  ghost predicate Fresh(s: State) {
    forall t: Tid :: FreshPc(s, PcOf(s, t))
  }

  predicate FreshPc(s: State, pc: Pc) { FreshBid(s, pc) && (pc.TopRead? ==> IsTop(s.db.bids, pc.top.item, pc.top)) }

  predicate FreshBid(s: State, pc: Pc) {
    && (BeforeCommit(pc) ==> ValidRequest(pc.bid))
    && (pc.PriceRead? || pc.BidAccepted? || pc.BidWritten? ==>
          pc.bid.item in s.db.items && s.db.items[pc.bid.item].current == pc.price)
    && (pc.BidAccepted? || pc.BidWritten? ==> Above(pc.bid.amount, pc.price))
    && (pc.BidWritten? ==> Insertable(s.db.bids, pc.bid))
  }

  function LastAmount(bids: seq<Bid>, item: int, starting: int): int {
    var own := OnItem(bids, item);
    if own == [] then starting else Cents(own[|own| - 1])
  }

  /** Every bid was above the starting price and above what was stored of each bid before it. */
  predicate Rising(bids: seq<Bid>, starting: int) {
    && (forall i :: 0 <= i < |bids| ==> Above(bids[i].amount, starting))
    && (forall i, j :: 0 <= i < j < |bids| ==> Above(bids[j].amount, Cents(bids[i])))
  }

  /** Each item's bids rise and its price is what was stored of the latest of them. */
  ghost predicate Priced(s: State) {
    && (forall b :: b in s.db.bids ==> b.item in s.db.items)
    && (forall id :: id in s.db.items ==>
          && s.db.items[id].current == LastAmount(s.db.bids, id, s.db.items[id].starting)
          && Rising(OnItem(s.db.bids, id), s.db.items[id].starting))
  }

  /** No two rows of the log agree on the constraint's columns, and the requests were valid. */
  ghost predicate WellFormedLog(bids: seq<Bid>) {
    && (forall b :: b in bids ==> ValidRequest(b))
    && (forall i, j :: 0 <= i < j < |bids| ==> !SameKey(bids[i], bids[j]))
  }

  function MessagesOf(bids: seq<Bid>): (r: seq<Message>)
    ensures |r| == |bids|
    ensures forall i :: 0 <= i < |bids| ==> r[i] == Message(bids[i].item, bids[i].amount)
  {
    seq(|bids|, i requires 0 <= i < |bids| => Message(bids[i].item, bids[i].amount))
  }

  /** Where the holder of bid_mutex is. */
  function HolderPc(s: State): Pc { if s.bidMutex.Some? then PcOf(s, s.bidMutex.value) else Idle }

  predicate Announcing(pc: Pc) { pc.BidCommitted? || pc.Broadcasting? }

  /** Committed bids are broadcast one at a time, in commit order. */
  ghost predicate Sequenced(s: State) {
    if Announcing(HolderPc(s)) then |s.db.bids| == s.feed.sent + 1 && s.db.bids[s.feed.sent] == HolderPc(s).bid
    else |s.db.bids| == s.feed.sent
  }

  /** Whom the running broadcast has not reached yet; None when there is none. */
  function Todo(s: State): Option<seq<Client>> {
    if s.wsMutex.Some? && PcOf(s, s.wsMutex.value).Broadcasting? then Some(PcOf(s, s.wsMutex.value).todo) else None
  }

  /** How much of the log a registered client has been sent. */
  function Upto(s: State, c: Client): nat {
    if Todo(s).Some? && c !in Todo(s).value then s.feed.sent + 1 else s.feed.sent
  }

  predicate IsSuffix(a: seq<Client>, b: seq<Client>) { |a| <= |b| && a == b[|b| - |a|..] }

  /** What a client was sent is a contiguous piece of the log. */
  ghost predicate Segment(bids: seq<Bid>, ms: seq<Message>) {
    exists i, j :: 0 <= i <= j <= |bids| && ms == MessagesOf(bids[i..j])
  }

  /** A registered client misses nothing after it joined. */
  predicate UpToDate(s: State, c: Client) {
    && c in s.feed.inbox && c in s.feed.joined
    && s.feed.joined[c] <= Upto(s, c) <= |s.db.bids|
    && s.feed.inbox[c] == MessagesOf(s.db.bids[s.feed.joined[c]..Upto(s, c)])
  }

  ghost predicate Delivered(s: State) {
    && Distinct(s.feed.clients)
    && (Todo(s).Some? ==> IsSuffix(Todo(s).value, s.feed.clients))
    && (forall c: Client :: c in s.feed.clients ==> UpToDate(s, c))
    && (forall c: Client :: c in s.feed.inbox ==> Segment(s.db.bids, s.feed.inbox[c]))
  }

  predicate SaleOf(bids: seq<Bid>, sale: Sale, top: Bid) {
    IsTop(bids, sale.item, top) && sale == Sale(top.item, top.user, top.seller, Cents(top))
  }

  /** A recorded sale names a top bid of the log as it was at the sale's commit. */
  ghost predicate SaleIsTop(s: State, k: nat) {
    && k < |s.db.sales| && k < |s.db.soldAt| && s.db.soldAt[k] <= |s.db.bids|
    && exists top :: SaleOf(s.db.bids[..s.db.soldAt[k]], s.db.sales[k], top)
  }

  ghost predicate Sold(s: State) {
    |s.db.soldAt| == |s.db.sales| && forall k: nat :: k < |s.db.sales| ==> SaleIsTop(s, k)
  }

  ghost predicate Inv(s: State) {
    && Locked(s) && OneTxn(s) && Fresh(s) && Priced(s) && WellFormedLog(s.db.bids)
    && Sequenced(s) && Delivered(s) && Sold(s)
  }

  // ----- Facts about the log -----

  lemma {:induction false} OnItemAppend(bids: seq<Bid>, b: Bid, item: int)
    ensures OnItem(bids + [b], item) == OnItem(bids, item) + if b.item == item then [b] else []
  {
    assert (bids + [b])[..|bids|] == bids;
  }

  lemma {:induction false} OnItemMembers(bids: seq<Bid>, item: int)
    ensures forall b :: b in OnItem(bids, item) <==> b in bids && b.item == item
  {
    if bids != [] {
      OnItemMembers(bids[..|bids| - 1], item);
      assert bids == bids[..|bids| - 1] + [bids[|bids| - 1]];
    }
  }

  lemma {:induction false} OnItemEmpty(bids: seq<Bid>, item: int)
    requires forall b :: b in bids ==> b.item != item
    ensures OnItem(bids, item) == []
  {
    if bids != [] {
      OnItemEmpty(bids[..|bids| - 1], item);
    }
  }

  lemma {:induction false} OnItemConcat(a: seq<Bid>, b: seq<Bid>, item: int)
    ensures OnItem(a + b, item) == OnItem(a, item) + OnItem(b, item)
  {
    if b == [] {
      assert a + b == a;
    } else {
      var n := |b| - 1;
      assert (a + b)[..|a + b| - 1] == a + b[..n];
      OnItemConcat(a, b[..n], item);
    }
  }

  /** Where two bids on one item are in the item's own log. */
  lemma {:induction false} OnItemPlaces(bids: seq<Bid>, item: int, i: nat, j: nat) returns (k: nat, l: nat)
    requires i < j < |bids| && bids[i].item == bids[j].item == item
    ensures k < l < |OnItem(bids, item)|
    ensures OnItem(bids, item)[k] == bids[i] && OnItem(bids, item)[l] == bids[j]
  {
    var a, b := bids[..j], bids[j..];
    assert bids == a + b;
    OnItemConcat(a, b, item);
    OnItemMembers(a, item);
    OnItemConcat([bids[j]], b[1..], item);
    assert b == [bids[j]] + b[1..];
    assert OnItem([bids[j]], item) == [bids[j]];
    var p := OnItem(a, item);
    assert a[i] in p;
    k :| 0 <= k < |p| && p[k] == bids[i];
    l := |p|;
  }

  /** Two bids on one item: the later one was above what was stored of the earlier one. */
  lemma LogRises(bids: seq<Bid>, item: int, starting: int, i: nat, j: nat)
    requires Rising(OnItem(bids, item), starting)
    requires i < j < |bids| && bids[i].item == bids[j].item == item
    ensures Above(bids[j].amount, Cents(bids[i])) && Cents(bids[i]) <= Cents(bids[j])
  {
    var k, l := OnItemPlaces(bids, item, i, j);
    AboveRounds(bids[j].amount, Cents(bids[i]));
  }

  lemma RisingStored(own: seq<Bid>, starting: int, i: nat, j: nat)
    requires Rising(own, starting) && i < j < |own|
    ensures Cents(own[i]) <= Cents(own[j])
  {
    AboveRounds(own[j].amount, Cents(own[i]));
  }

  /** The latest bid on an item is a top one, and every top one is stored at its price. */
  lemma LatestIsTop(bids: seq<Bid>, item: int, starting: int, last: Bid)
    requires Rising(OnItem(bids, item), starting)
    requires OnItem(bids, item) != [] && last == OnItem(bids, item)[|OnItem(bids, item)| - 1]
    ensures IsTop(bids, item, last)
  {
    OnItemMembers(bids, item);
    var own := OnItem(bids, item);
    assert last in own;
    forall c | c in bids && c.item == item ensures Cents(c) <= Cents(last) {
      assert c in own;
      var i :| 0 <= i < |own| && own[i] == c;
      if i < |own| - 1 {
        RisingStored(own, starting, i, |own| - 1);
      }
    }
  }

  lemma TopIsCurrent(bids: seq<Bid>, item: int, starting: int, b: Bid)
    requires Rising(OnItem(bids, item), starting) && IsTop(bids, item, b)
    ensures OnItem(bids, item) != [] && Cents(b) == LastAmount(bids, item, starting)
  {
    OnItemMembers(bids, item);
    var own := OnItem(bids, item);
    assert b in own;
    var last := own[|own| - 1];
    LatestIsTop(bids, item, starting, last);
    assert last in bids && last.item == item;
  }

  lemma {:induction false} KeysDifferOnItem(bids: seq<Bid>, item: int)
    requires WellFormedLog(bids)
    ensures WellFormedLog(OnItem(bids, item))
  {
    if bids != [] {
      var n := |bids| - 1;
      KeysDifferOnItem(bids[..n], item);
      OnItemMembers(bids[..n], item);
    }
  }

  // ----- Every step keeps the invariant -----

  /** The thread a step belongs to. */
  function ThreadOf(e: Event): Option<Tid> {
    if e.CreateAuction? || e.Open? || e.Close? then None else Some(e.t)
  }

  /** A step moves no other thread. */
  lemma OthersStay(s: State, e: Event)
    requires Enabled(s, e)
    ensures forall u: Tid :: ThreadOf(e) != Some(u) ==> PcOf(Apply(s, e), u) == PcOf(s, u)
  {
  }

  lemma StepLocked(s: State, e: Event)
    requires Locked(s) && Enabled(s, e)
    ensures Locked(Apply(s, e))
  {
    var s' := Apply(s, e);
    forall t: Tid
      ensures InBidSection(PcOf(s', t)) ==> s'.bidMutex == Some(t)
      ensures PcOf(s', t).Broadcasting? ==> s'.wsMutex == Some(t)
    {
      StepLockedAt(s, e, t);
    }
    StepHeld(s, e);
  }

  lemma StepLockedAt(s: State, e: Event, t: Tid)
    requires Locked(s) && Enabled(s, e)
    ensures var s' := Apply(s, e);
      && (InBidSection(PcOf(s', t)) ==> s'.bidMutex == Some(t))
      && (PcOf(s', t).Broadcasting? ==> s'.wsMutex == Some(t))
  {
    if ThreadOf(e) == Some(t) {
      assert InBidSection(PcOf(s, t)) ==> s.bidMutex == Some(t);
    } else {
      OthersStay(s, e);
      assert PcOf(Apply(s, e), t) == PcOf(s, t);
    }
  }

  /** A held mutex is held by a thread in its section. */
  lemma StepHeld(s: State, e: Event)
    requires Locked(s) && Enabled(s, e)
    ensures var s' := Apply(s, e);
      && (s'.wsMutex.Some? ==> PcOf(s', s'.wsMutex.value).Broadcasting?)
      && (s'.bidMutex.Some? ==> InBidSection(PcOf(s', s'.bidMutex.value)) || PcOf(s', s'.bidMutex.value).Idle?)
  {
    OthersStay(s, e);
    if ThreadOf(e).Some? {
      OwnStepHolds(s, e);
      assert InBidSection(PcOf(s, e.t)) ==> s.bidMutex == Some(e.t);
    }
  }

  /** What a step does to the mutexes: the stepping handler takes or releases them, or they stay. */
  lemma OwnStepHolds(s: State, e: Event)
    requires Enabled(s, e) && ThreadOf(e).Some?
    requires InBidSection(PcOf(s, e.t)) ==> s.bidMutex == Some(e.t)
    requires s.bidMutex == Some(e.t) ==> InBidSection(PcOf(s, e.t)) || PcOf(s, e.t).Idle?
    requires PcOf(s, e.t).Broadcasting? ==> s.wsMutex == Some(e.t)
    ensures var s' := Apply(s, e); var pc := PcOf(s', e.t);
      && (s'.bidMutex == s.bidMutex || s'.bidMutex.None? || (s'.bidMutex == Some(e.t) && pc.Idle?))
      && (s'.bidMutex == Some(e.t) ==> InBidSection(pc) || pc.Idle?)
      && (s'.wsMutex == s.wsMutex || s'.wsMutex.None? || s'.wsMutex == Some(e.t))
      && (PcOf(s, e.t).Broadcasting? && s'.wsMutex == Some(e.t) ==> pc.Broadcasting?)
      && (s.wsMutex.None? && s'.wsMutex == Some(e.t) ==> pc.Broadcasting?)
  {
  }

  lemma StepOneTxn(s: State, e: Event)
    requires OneTxn(s) && Enabled(s, e)
    ensures OneTxn(Apply(s, e))
  {
    var s' := Apply(s, e);
    forall t: Tid ensures InTxn(PcOf(s', t)) <==> s'.txn == Some(t) {
      assert InTxn(PcOf(s, t)) <==> s.txn == Some(t);
      if ThreadOf(e) == Some(t) {
        OwnTxn(s, e);
      } else if ThreadOf(e).Some? {
        OtherTxn(s, e, t);
      }
    }
  }

  /** A handler is inside the transaction exactly as long as it is its own. */
  lemma OwnTxn(s: State, e: Event)
    requires Enabled(s, e) && ThreadOf(e).Some? && (InTxn(PcOf(s, e.t)) <==> s.txn == Some(e.t))
    ensures InTxn(PcOf(Apply(s, e), e.t)) <==> Apply(s, e).txn == Some(e.t)
  {
  }

  lemma OtherTxn(s: State, e: Event, t: Tid)
    requires OneTxn(s) && Enabled(s, e) && ThreadOf(e).Some? && ThreadOf(e) != Some(t)
    ensures PcOf(Apply(s, e), t) == PcOf(s, t)
    ensures Apply(s, e).txn == Some(t) <==> s.txn == Some(t)
  {
    OthersStay(s, e);
    assert InTxn(PcOf(s, e.t)) <==> s.txn == Some(e.t);
  }

  lemma StepFresh(s: State, e: Event)
    requires Locked(s) && OneTxn(s) && Fresh(s) && Enabled(s, e)
    ensures Fresh(Apply(s, e))
  {
    OthersStay(s, e);
    var s' := Apply(s, e);
    forall t: Tid
      ensures FreshPc(s', PcOf(s', t))
    {
      assert FreshPc(s, PcOf(s, t));
      if ThreadOf(e) == Some(t) {
        OwnStepIsFresh(s, e);
      } else {
        OtherStaysFresh(s, e, t);
      }
    }
  }

  lemma OwnStepIsFresh(s: State, e: Event)
    requires Enabled(s, e) && ThreadOf(e).Some? && FreshPc(s, PcOf(s, e.t))
    ensures FreshPc(Apply(s, e), PcOf(Apply(s, e), e.t))
  {
    var pc := PcOf(Apply(s, e), e.t);
    if InSaleTxn(pc) || pc.Done? {
    } else {
      OwnBidIsFresh(s, e);
    }
  }

  lemma OwnBidIsFresh(s: State, e: Event)
    requires Enabled(s, e) && ThreadOf(e).Some? && FreshBid(s, PcOf(s, e.t))
    ensures FreshBid(Apply(s, e), PcOf(Apply(s, e), e.t))
  {
  }

  /** Another handler's step does not make what a handler has read stale. */
  lemma OtherStaysFresh(s: State, e: Event, t: Tid)
    requires OneTxn(s) && Enabled(s, e) && ThreadOf(e) != Some(t) && FreshPc(s, PcOf(s, t))
    ensures FreshPc(Apply(s, e), PcOf(s, t))
  {
    var mine := InTxn(PcOf(s, t));
    assert mine <==> s.txn == Some(t);
    if e.CommitBid? {
      assert InBidTxn(PcOf(s, e.t)) ==> s.txn == Some(e.t);
      assert !mine;
    } else {
      assert Apply(s, e).db.bids == s.db.bids;
    }
  }

  lemma CommitPriced(s: State, t: Tid, id: int)
    requires Fresh(s) && Priced(s) && Enabled(s, CommitBid(t)) && id in s.db.items
    ensures var s' := Apply(s, CommitBid(t));
      && id in s'.db.items && s'.db.items[id].starting == s.db.items[id].starting
      && s'.db.items[id].current == LastAmount(s'.db.bids, id, s'.db.items[id].starting)
      && Rising(OnItem(s'.db.bids, id), s'.db.items[id].starting)
  {
    assert FreshPc(s, PcOf(s, t));
    AppendRises(s.db.bids, PcOf(s, t).bid, id, s.db.items[id].starting);
  }

  /** A bid above what was stored of the last one on its item. */
  lemma AppendRises(bids: seq<Bid>, b: Bid, id: int, starting: int)
    requires Rising(OnItem(bids, id), starting)
    requires b.item == id ==> Above(b.amount, LastAmount(bids, id, starting))
    ensures Rising(OnItem(bids + [b], id), starting)
    ensures LastAmount(bids + [b], id, starting) == if b.item == id then Cents(b) else LastAmount(bids, id, starting)
  {
    OnItemAppend(bids, b, id);
    if b.item == id {
      RisingSnoc(OnItem(bids, id), b, starting);
    }
  }

  lemma RisingSnoc(own: seq<Bid>, b: Bid, starting: int)
    requires Rising(own, starting)
    requires Above(b.amount, if own == [] then starting else Cents(own[|own| - 1]))
    ensures Rising(own + [b], starting)
  {
    var all := own + [b];
    if own != [] {
      AboveRounds(own[|own| - 1].amount, starting);
    }
    forall i, j | 0 <= i < j < |all| ensures Above(all[j].amount, Cents(all[i])) {
      if j == |own| && i < |own| - 1 {
        RisingStored(own, starting, i, |own| - 1);
      }
    }
  }

  lemma StepPriced(s: State, e: Event)
    requires Fresh(s) && Priced(s) && Enabled(s, e)
    ensures Priced(Apply(s, e))
  {
    if e.CommitBid? {
      var s' := Apply(s, e);
      assert FreshPc(s, PcOf(s, e.t));
      forall id | id in s'.db.items
        ensures s'.db.items[id].current == LastAmount(s'.db.bids, id, s'.db.items[id].starting)
        ensures Rising(OnItem(s'.db.bids, id), s'.db.items[id].starting)
      {
        CommitPriced(s, e.t, id);
      }
    } else if e.CreateAuction? {
      OnItemEmpty(s.db.bids, e.id);
    } else {
      StepKeepsPrices(s, e);
      SamePrices(s, Apply(s, e));
    }
  }

  lemma StepKeepsPrices(s: State, e: Event)
    requires Enabled(s, e) && !e.CommitBid? && !e.CreateAuction?
    ensures var s' := Apply(s, e);
      && s'.db.bids == s.db.bids && s'.db.items.Keys == s.db.items.Keys
      && forall id :: id in s.db.items ==>
           s'.db.items[id].starting == s.db.items[id].starting && s'.db.items[id].current == s.db.items[id].current
  {
  }

  lemma SamePrices(s: State, s': State)
    requires Priced(s) && s'.db.bids == s.db.bids && s'.db.items.Keys == s.db.items.Keys
    requires forall id :: id in s.db.items ==>
      s'.db.items[id].starting == s.db.items[id].starting && s'.db.items[id].current == s.db.items[id].current
    ensures Priced(s')
  {
  }

  lemma StepWellFormed(s: State, e: Event)
    requires Fresh(s) && WellFormedLog(s.db.bids) && Enabled(s, e)
    ensures WellFormedLog(Apply(s, e).db.bids)
  {
    if e.CommitBid? {
      assert FreshPc(s, PcOf(s, e.t));
    }
  }

  lemma StepSequenced(s: State, e: Event)
    requires Locked(s) && Sequenced(s) && Enabled(s, e)
    ensures Sequenced(Apply(s, e))
  {
    if e.CommitBid? || e.UnlockWs? {
      StepAnnounces(s, e);
    } else {
      StepKeepsAnnouncement(s, e);
    }
  }

  /** A commit starts an announcement, the end of the broadcast finishes it. */
  lemma StepAnnounces(s: State, e: Event)
    requires Locked(s) && Sequenced(s) && Enabled(s, e) && (e.CommitBid? || e.UnlockWs?)
    ensures Sequenced(Apply(s, e))
  {
    assert InBidSection(PcOf(s, e.t)) ==> s.bidMutex == Some(e.t);
  }

  lemma StepKeepsAnnouncement(s: State, e: Event)
    requires Locked(s) && Enabled(s, e) && !e.CommitBid? && !e.UnlockWs?
    ensures var s' := Apply(s, e);
      && s'.db.bids == s.db.bids && s'.feed.sent == s.feed.sent && Announcing(HolderPc(s')) == Announcing(HolderPc(s))
      && (Announcing(HolderPc(s)) ==> HolderPc(s').bid == HolderPc(s).bid)
  {
    OthersStay(s, e);
    if ThreadOf(e).Some? {
      assert InBidSection(PcOf(s, e.t)) ==> s.bidMutex == Some(e.t);
      OwnStepAnnounces(s, e);
    }
  }

  lemma OwnStepAnnounces(s: State, e: Event)
    requires Enabled(s, e) && ThreadOf(e).Some? && !e.CommitBid? && !e.UnlockWs?
    requires InBidSection(PcOf(s, e.t)) ==> s.bidMutex == Some(e.t)
    ensures var s' := Apply(s, e); var pc, pc' := PcOf(s, e.t), PcOf(s', e.t);
      && s'.db.bids == s.db.bids && s'.feed.sent == s.feed.sent && Announcing(pc') == Announcing(pc)
      && (Announcing(pc) ==> pc'.bid == pc.bid)
      && (s'.bidMutex == s.bidMutex || (s.bidMutex.None? && s'.bidMutex == Some(e.t))
          || (s.bidMutex == Some(e.t) && s'.bidMutex.None? && !Announcing(pc)))
  {
  }

  lemma StepSold(s: State, e: Event)
    requires Fresh(s) && Sold(s) && Enabled(s, e)
    ensures Sold(Apply(s, e))
  {
    var s' := Apply(s, e);
    forall k: nat | k < |s'.db.sales| ensures SaleIsTop(s', k) {
      if k < |s.db.sales| {
        SaleStays(s, e, k);
      } else {
        assert FreshPc(s, PcOf(s, e.t));
        assert s.db.bids[..|s.db.bids|] == s.db.bids;
        assert SaleOf(s'.db.bids[..s'.db.soldAt[k]], s'.db.sales[k], PcOf(s, e.t).top);
      }
    }
  }

  lemma SaleStays(s: State, e: Event, k: nat)
    requires Enabled(s, e) && SaleIsTop(s, k)
    ensures SaleIsTop(Apply(s, e), k)
  {
    var s' := Apply(s, e);
    assert s'.db.bids[..s.db.soldAt[k]] == s.db.bids[..s.db.soldAt[k]];
    assert s'.db.soldAt[k] == s.db.soldAt[k] && s'.db.sales[k] == s.db.sales[k];
  }

  lemma SegmentGrows(bids: seq<Bid>, b: Bid, ms: seq<Message>)
    requires Segment(bids, ms)
    ensures Segment(bids + [b], ms)
  {
    var i, j :| 0 <= i <= j <= |bids| && ms == MessagesOf(bids[i..j]);
    assert (bids + [b])[i..j] == bids[i..j];
  }

  lemma MessagesGrow(bids: seq<Bid>, i: nat, j: nat)
    requires i <= j < |bids|
    ensures MessagesOf(bids[i..j + 1]) == MessagesOf(bids[i..j]) + [Message(bids[j].item, bids[j].amount)]
  {
  }

  lemma StepCommitDelivered(s: State, e: Event)
    requires Locked(s) && Sequenced(s) && Delivered(s) && Enabled(s, e) && e.CommitBid?
    ensures Delivered(Apply(s, e))
  {
    OthersStay(s, e);
    var s' := Apply(s, e);
    var b := PcOf(s, e.t).bid;
    assert InBidSection(PcOf(s, e.t));
    assert Todo(s).None?;
    forall c | c in s.feed.clients ensures UpToDate(s', c) {
      assert UpToDate(s, c);
      assert s'.db.bids[s.feed.joined[c]..Upto(s, c)] == s.db.bids[s.feed.joined[c]..Upto(s, c)];
    }
    forall c | c in s.feed.inbox ensures Segment(s'.db.bids, s'.feed.inbox[c]) {
      SegmentGrows(s.db.bids, b, s.feed.inbox[c]);
    }
  }

  /** The client served now is the first of those not yet reached. */
  lemma NextClient(s: State, e: Event)
    requires Locked(s) && Delivered(s) && Enabled(s, e) && e.SendNext?
    ensures var todo := PcOf(s, e.t).todo; var k := |s.feed.clients| - |todo|;
      && s.wsMutex == Some(e.t) && s.bidMutex == Some(e.t)
      && Todo(s) == Some(todo) && Todo(Apply(s, e)) == Some(todo[1..])
      && 0 <= k < |s.feed.clients| && todo[0] == s.feed.clients[k] && todo[1..] == s.feed.clients[k + 1..]
      && todo[0] !in todo[1..]
  {
    var todo := PcOf(s, e.t).todo;
    assert InBidSection(PcOf(s, e.t));
    var k := |s.feed.clients| - |todo|;
    assert todo[1..] == s.feed.clients[k + 1..];
  }

  lemma SendUpToDate(s: State, e: Event, c: Client)
    requires Locked(s) && Sequenced(s) && Delivered(s) && Enabled(s, e) && e.SendNext? && c in s.feed.clients
    ensures UpToDate(Apply(s, e), c)
  {
    NextClient(s, e);
    var todo := PcOf(s, e.t).todo;
    assert UpToDate(s, c);
    assert todo == [todo[0]] + todo[1..];
    if c == todo[0] {
      MessagesGrow(s.db.bids, s.feed.joined[c], s.feed.sent);
    }
  }

  lemma StepSendDelivered(s: State, e: Event)
    requires Locked(s) && Sequenced(s) && Delivered(s) && Enabled(s, e) && e.SendNext?
    ensures Delivered(Apply(s, e))
  {
    var s' := Apply(s, e);
    NextClient(s, e);
    forall c | c in s.feed.clients ensures UpToDate(s', c) {
      SendUpToDate(s, e, c);
    }
    forall c | c in s'.feed.inbox ensures Segment(s'.db.bids, s'.feed.inbox[c]) {
      if c == PcOf(s, e.t).todo[0] {
        assert UpToDate(s', c);
      }
    }
  }

  /** The broadcast starts with every client to reach and ends with none. */
  lemma StepWsDelivered(s: State, e: Event)
    requires Locked(s) && Sequenced(s) && Delivered(s) && Enabled(s, e) && (e.LockWs? || e.UnlockWs?)
    ensures Delivered(Apply(s, e))
  {
    var s' := Apply(s, e);
    assert s.feed.clients == s.feed.clients[0..];
    if e.UnlockWs? {
      assert s.wsMutex == Some(e.t) && InBidSection(PcOf(s, e.t)) && s.bidMutex == Some(e.t);
    }
    forall c | c in s.feed.clients ensures UpToDate(s', c) {
      assert UpToDate(s, c);
    }
  }

  lemma StepClientDelivered(s: State, e: Event)
    requires Locked(s) && Sequenced(s) && Delivered(s) && Enabled(s, e) && (e.Open? || e.Close?)
    ensures Delivered(Apply(s, e))
  {
    var s' := Apply(s, e);
    forall c | c in s'.feed.clients ensures UpToDate(s', c) {
      if e.Close? || c != e.c {
        assert UpToDate(s, c);
      }
    }
    forall c | c in s'.feed.inbox ensures Segment(s'.db.bids, s'.feed.inbox[c]) {
      if e.Open? && c == e.c {
        assert s'.feed.inbox[c] == MessagesOf(s.db.bids[0..0]);
      } else {
        assert Segment(s.db.bids, s.feed.inbox[c]);
      }
    }
  }

  lemma StepDelivered(s: State, e: Event)
    requires Locked(s) && Sequenced(s) && Delivered(s) && Enabled(s, e)
    ensures Delivered(Apply(s, e))
  {
    if e.CommitBid? {
      StepCommitDelivered(s, e);
    } else if e.SendNext? {
      StepSendDelivered(s, e);
    } else if e.LockWs? || e.UnlockWs? {
      StepWsDelivered(s, e);
    } else if e.Open? || e.Close? {
      StepClientDelivered(s, e);
    } else {
      StepQuietDelivered(s, e);
    }
  }

  /** Steps that touch neither the log, the clients nor ws_mutex. */
  lemma StepQuietDelivered(s: State, e: Event)
    requires Locked(s) && Delivered(s) && Enabled(s, e)
    requires !e.CommitBid? && !e.SendNext? && !e.LockWs? && !e.UnlockWs? && !e.Open? && !e.Close?
    ensures Delivered(Apply(s, e))
  {
    QuietStep(s, e);
    SameDelivery(s, Apply(s, e));
  }

  lemma QuietStep(s: State, e: Event)
    requires Locked(s) && Enabled(s, e)
    requires !e.CommitBid? && !e.SendNext? && !e.LockWs? && !e.UnlockWs? && !e.Open? && !e.Close?
    ensures var s' := Apply(s, e); s'.db.bids == s.db.bids && s'.feed == s.feed && Todo(s') == Todo(s)
  {
    QuietFields(s, e);
    if s.wsMutex.Some? {
      OthersStay(s, e);
    }
  }

  lemma QuietFields(s: State, e: Event)
    requires Enabled(s, e)
    requires !e.CommitBid? && !e.SendNext? && !e.LockWs? && !e.UnlockWs? && !e.Open? && !e.Close?
    ensures var s' := Apply(s, e); s'.db.bids == s.db.bids && s'.feed == s.feed && s'.wsMutex == s.wsMutex
    ensures ThreadOf(e).Some? ==> !PcOf(s, e.t).Broadcasting?
  {
  }

  lemma SameDelivery(s: State, s': State)
    requires Delivered(s) && Todo(s') == Todo(s) && s'.db.bids == s.db.bids && s'.feed == s.feed
    ensures Delivered(s')
  {
    forall c | c in s.feed.clients ensures UpToDate(s', c) {
      assert UpToDate(s, c);
    }
  }

  lemma {:induction false} RunKeepsInv(s: State, es: seq<Event>)
    requires Inv(s) && IsRun(s, es)
    ensures Inv(After(s, es))
    decreases |es|
  {
    if es != [] {
      var e := es[0];
      StepLocked(s, e);
      StepOneTxn(s, e);
      StepFresh(s, e);
      StepPriced(s, e);
      StepWellFormed(s, e);
      StepSequenced(s, e);
      StepDelivered(s, e);
      StepSold(s, e);
      RunKeepsInv(Apply(s, e), es[1..]);
    }
  }

  lemma ReachableInv(es: seq<Event>)
    requires IsRun(INITIAL, es)
    ensures Inv(After(INITIAL, es))
  {
    RunKeepsInv(INITIAL, es);
  }

  // ----- What every run guarantees -----

  /** On every item each accepted bid was above the starting price and above what was stored of
      every bid before it, the stored amounts never fall, and the current price is the highest. */
  lemma PriceIsMaximum(es: seq<Event>, id: int)
    requires IsRun(INITIAL, es) && id in After(INITIAL, es).db.items
    ensures var db := After(INITIAL, es).db; var item := db.items[id];
      && (forall i, j :: 0 <= i < j < |db.bids| && db.bids[i].item == db.bids[j].item == id ==>
            Above(db.bids[j].amount, Cents(db.bids[i])) && Cents(db.bids[i]) <= Cents(db.bids[j]))
      && (forall b :: b in db.bids && b.item == id ==>
            Above(b.amount, item.starting) && item.starting <= Cents(b) <= item.current)
      && ((exists b :: b in db.bids && b.item == id && Cents(b) == item.current)
          || (item.current == item.starting && forall b :: b in db.bids ==> b.item != id))
  {
    ReachableInv(es);
    var db := After(INITIAL, es).db;
    PricedIsMaximum(db.bids, id, db.items[id].starting);
  }

  lemma PricedIsMaximum(bids: seq<Bid>, id: int, starting: int)
    requires Rising(OnItem(bids, id), starting)
    ensures forall i, j :: 0 <= i < j < |bids| && bids[i].item == bids[j].item == id ==>
      Above(bids[j].amount, Cents(bids[i])) && Cents(bids[i]) <= Cents(bids[j])
    ensures forall b :: b in bids && b.item == id ==>
      Above(b.amount, starting) && starting <= Cents(b) <= LastAmount(bids, id, starting)
    ensures (exists b :: b in bids && b.item == id && Cents(b) == LastAmount(bids, id, starting))
      || (LastAmount(bids, id, starting) == starting && forall b :: b in bids ==> b.item != id)
  {
    forall i, j | 0 <= i < j < |bids| && bids[i].item == bids[j].item == id
      ensures Above(bids[j].amount, Cents(bids[i])) && Cents(bids[i]) <= Cents(bids[j])
    {
      LogRises(bids, id, starting, i, j);
    }
    OnItemMembers(bids, id);
    var own := OnItem(bids, id);
    if own != [] {
      LatestIsTop(bids, id, starting, own[|own| - 1]);
    }
    forall b | b in bids && b.item == id
      ensures Above(b.amount, starting) && starting <= Cents(b) <= LastAmount(bids, id, starting)
    {
      assert b in own;
      AboveRounds(b.amount, starting);
    }
    if own == [] {
      forall b | b in bids ensures b.item != id {
        assert b.item == id ==> b in own;
      }
    }
  }

  /** The bid at `k` is on the item and none after it is. */
  ghost predicate LastAt(bids: seq<Bid>, id: int, k: nat) {
    k < |bids| && bids[k].item == id && forall j :: k < j < |bids| ==> bids[j].item != id
  }

  function Latest(bids: seq<Bid>, id: int): Bid
    requires OnItem(bids, id) != []
  {
    OnItem(bids, id)[|OnItem(bids, id)| - 1]
  }

  /** The latest bid raised the stored price, by at least a cent. */
  predicate Raised(own: seq<Bid>) { |own| < 2 || Cents(own[|own| - 2]) < Cents(own[|own| - 1]) }

  lemma {:induction false} LatestIsLast(bids: seq<Bid>, id: int) returns (k: nat)
    requires OnItem(bids, id) != []
    ensures LastAt(bids, id, k) && bids[k] == Latest(bids, id)
  {
    var n := |bids| - 1;
    if bids[n].item == id {
      k := n;
    } else {
      k := LatestIsLast(bids[..n], id);
    }
  }

  ghost predicate OnlyTop(bids: seq<Bid>, id: int, b: Bid) { forall c :: IsTop(bids, id, c) ==> c == b }

  /** The database has no choice exactly when the latest bid raised the price. */
  lemma OnlyTopExactly(bids: seq<Bid>, id: int, starting: int)
    requires Rising(OnItem(bids, id), starting) && WellFormedLog(bids) && OnItem(bids, id) != []
    ensures OnlyTop(bids, id, Latest(bids, id)) <==> Raised(OnItem(bids, id))
  {
    var own, last := OnItem(bids, id), Latest(bids, id);
    OnItemMembers(bids, id);
    LatestIsTop(bids, id, starting, last);
    if Raised(own) {
      forall c | IsTop(bids, id, c) ensures c == last {
        TopOfRaised(bids, id, starting, c);
      }
    } else {
      var tied := own[|own| - 2];
      RisingStored(own, starting, |own| - 2, |own| - 1);
      assert tied in own && IsTop(bids, id, tied);
      KeysDifferOnItem(bids, id);
      assert !SameKey(tied, last);
    }
  }

  lemma TopOfRaised(bids: seq<Bid>, id: int, starting: int, c: Bid)
    requires Rising(OnItem(bids, id), starting) && Raised(OnItem(bids, id)) && IsTop(bids, id, c)
    ensures OnItem(bids, id) != [] && c == Latest(bids, id)
  {
    TopIsCurrent(bids, id, starting, c);
    OnItemMembers(bids, id);
    var own := OnItem(bids, id);
    assert c in own;
    forall i | 0 <= i < |own| - 1 ensures Cents(own[i]) < Cents(own[|own| - 1]) {
      if i < |own| - 2 {
        RisingStored(own, starting, i, |own| - 2);
      }
    }
  }

  /** The last bid on an item is a row that ORDER BY bid_amount DESC LIMIT 1 may return, every such
      row is stored at the current price, and it is the only one exactly when it raised the price. */
  lemma WinnerIsLastBidder(es: seq<Event>, id: int) returns (k: nat)
    requires IsRun(INITIAL, es) && OnItem(After(INITIAL, es).db.bids, id) != []
    ensures var db := After(INITIAL, es).db;
      && LastAt(db.bids, id, k) && IsTop(db.bids, id, db.bids[k]) && id in db.items
      && (forall c :: IsTop(db.bids, id, c) ==> Cents(c) == db.items[id].current)
      && (OnlyTop(db.bids, id, db.bids[k]) <==> Raised(OnItem(db.bids, id)))
  {
    ReachableInv(es);
    var db := After(INITIAL, es).db;
    k := LatestIsLast(db.bids, id);
    assert db.bids[k] in db.bids;
    TopsOf(db.bids, id, db.items[id].starting);
  }

  lemma TopsOf(bids: seq<Bid>, id: int, starting: int)
    requires Rising(OnItem(bids, id), starting) && WellFormedLog(bids) && OnItem(bids, id) != []
    ensures IsTop(bids, id, Latest(bids, id))
    ensures forall c :: IsTop(bids, id, c) ==> Cents(c) == LastAmount(bids, id, starting)
    ensures OnlyTop(bids, id, Latest(bids, id)) <==> Raised(OnItem(bids, id))
  {
    LatestIsTop(bids, id, starting, Latest(bids, id));
    forall c | IsTop(bids, id, c) ensures Cents(c) == LastAmount(bids, id, starting) {
      TopIsCurrent(bids, id, starting, c);
    }
    OnlyTopExactly(bids, id, starting);
  }

  /** A bid about to be committed will be the only winner so far exactly when it is the first on
      its item or at least half a cent above the price: what rounds down to the price only ties. */
  lemma BidWinsExactly(es: seq<Event>, t: Tid)
    requires IsRun(INITIAL, es) && Enabled(After(INITIAL, es), CommitBid(t))
    ensures var s := After(INITIAL, es); var b, price := PcOf(s, t).bid, PcOf(s, t).price;
      var db := Apply(s, CommitBid(t)).db;
      && IsTop(db.bids, b.item, b) && b.item in db.items && db.items[b.item].current == Cents(b) >= price
      && (OnlyTop(db.bids, b.item, b) <==>
            OnItem(s.db.bids, b.item) == [] || b.amount * 100.0 >= price as real + 0.5)
  {
    ReachableInv(es);
    var s := After(INITIAL, es);
    var b, price := PcOf(s, t).bid, PcOf(s, t).price;
    assert FreshPc(s, PcOf(s, t));
    StepPriced(s, CommitBid(t));
    StepWellFormed(s, CommitBid(t));
    AboveRounds(b.amount, price);
    RaisesExactly(b.amount, price);
    OnItemAppend(s.db.bids, b, b.item);
    var bids := s.db.bids + [b];
    var starting := s.db.items[b.item].starting;
    LatestIsTop(bids, b.item, starting, b);
    OnlyTopExactly(bids, b.item, starting);
  }

  lemma WholeCentsOrder(own: seq<Bid>, starting: int, i: nat, j: nat)
    requires Rising(own, starting) && i < j < |own| && forall b :: b in own ==> WholeCents(b.amount)
    ensures own[i].amount < own[j].amount && Cents(own[i]) < Cents(own[j])
  {
    assert own[i] in own && own[j] in own;
    WholeCentsRaise(own[j].amount, Cents(own[i]));
    WholeCentsRaise(own[i].amount, starting);
  }

  /** Whole-cent amounts never tie: each bid on the item exceeds every earlier one. */
  lemma WholeCentsNeverTie(es: seq<Event>, id: int)
    requires IsRun(INITIAL, es)
    requires forall b :: b in After(INITIAL, es).db.bids && b.item == id ==> WholeCents(b.amount)
    ensures var bids := After(INITIAL, es).db.bids;
      && Raised(OnItem(bids, id))
      && forall i, j :: 0 <= i < j < |bids| && bids[i].item == bids[j].item == id ==> bids[i].amount < bids[j].amount
  {
    ReachableInv(es);
    var db := After(INITIAL, es).db;
    var own := OnItem(db.bids, id);
    OnItemMembers(db.bids, id);
    if own != [] {
      assert own[0] in own;
      forall i, j | 0 <= i < j < |own| ensures own[i].amount < own[j].amount && Cents(own[i]) < Cents(own[j]) {
        WholeCentsOrder(own, db.items[id].starting, i, j);
      }
    }
    forall i, j | 0 <= i < j < |db.bids| && db.bids[i].item == db.bids[j].item == id
      ensures db.bids[i].amount < db.bids[j].amount
    {
      var k, l := OnItemPlaces(db.bids, id, i, j);
    }
  }

  lemma SegmentPoints(bids: seq<Bid>, ms: seq<Message>) returns (lo: nat)
    requires Segment(bids, ms)
    ensures lo + |ms| <= |bids|
    ensures forall i :: 0 <= i < |ms| ==> ms[i] == Message(bids[lo + i].item, bids[lo + i].amount)
  {
    var hi: nat;
    lo, hi :| lo <= hi <= |bids| && ms == MessagesOf(bids[lo..hi]);
  }

  /** The later of two messages about one item tells a price above what was stored of the earlier. */
  predicate Follows(m: Message, n: Message) {
    && Above(n.newBid, ToCents(m.newBid)) && ToCents(m.newBid) <= ToCents(n.newBid)
    && (WholeCents(m.newBid) ==> m.newBid < n.newBid)
  }

  lemma LaterFollows(s: State, i: nat, j: nat)
    requires Priced(s) && i < j < |s.db.bids| && s.db.bids[i].item == s.db.bids[j].item
    ensures Follows(Message(s.db.bids[i].item, s.db.bids[i].amount), Message(s.db.bids[j].item, s.db.bids[j].amount))
  {
    var bids, id := s.db.bids, s.db.bids[i].item;
    assert bids[i] in bids;
    LogRises(bids, id, s.db.items[id].starting, i, j);
    if WholeCents(bids[i].amount) {
      WholeCentsRaise(bids[i].amount, (bids[i].amount * 100.0).Floor - 1);
    }
  }

  lemma SegmentFollows(s: State, ms: seq<Message>)
    requires Priced(s) && Segment(s.db.bids, ms)
    ensures forall i, j :: 0 <= i < j < |ms| && ms[i].item == ms[j].item ==> Follows(ms[i], ms[j])
  {
    var lo := SegmentPoints(s.db.bids, ms);
    forall i, j | 0 <= i < j < |ms| && ms[i].item == ms[j].item ensures Follows(ms[i], ms[j]) {
      LaterFollows(s, lo + i, lo + j);
    }
  }

  /** What a client is sent while registered is a contiguous piece of the log of accepted
      bids, so the stored prices it is told of never fall; and when no bid is in flight it
      has everything since it joined. */
  lemma ClientSeesTheLog(es: seq<Event>, c: Client)
    requires IsRun(INITIAL, es) && c in After(INITIAL, es).feed.inbox
    ensures var s := After(INITIAL, es); var ms := s.feed.inbox[c];
      && Segment(s.db.bids, ms)
      && (forall i, j :: 0 <= i < j < |ms| && ms[i].item == ms[j].item ==> Follows(ms[i], ms[j]))
      && (c in s.feed.clients && s.bidMutex.None? ==>
            && c in s.feed.joined && s.feed.joined[c] <= |s.db.bids|
            && ms == MessagesOf(s.db.bids[s.feed.joined[c]..]))
  {
    ReachableInv(es);
    var s := After(INITIAL, es);
    SegmentFollows(s, s.feed.inbox[c]);
    if c in s.feed.clients && s.bidMutex.None? {
      assert UpToDate(s, c);
      assert s.db.bids[s.feed.joined[c]..|s.db.bids|] == s.db.bids[s.feed.joined[c]..];
    }
  }

  // ----- Sales -----

  lemma {:induction false} PrefixRises(early: seq<Bid>, late: seq<Bid>, id: int, starting: int)
    requires Rising(OnItem(early + late, id), starting)
    ensures Rising(OnItem(early, id), starting)
  {
    OnItemConcat(early, late, id);
    var a, all := OnItem(early, id), OnItem(early + late, id);
    assert forall k :: 0 <= k < |a| ==> a[k] == all[k];
  }

  /** The sale that is about to be committed is recorded at the item's current price, and goes
      to its last bidder whenever that bid raised the price. */
  lemma SaleIsCurrent(es: seq<Event>, t: Tid)
    requires IsRun(INITIAL, es) && Enabled(After(INITIAL, es), CommitSale(t))
    ensures var s := After(INITIAL, es); var top := PcOf(s, t).top;
      && top.item in s.db.items && IsTop(s.db.bids, top.item, top)
      && Apply(s, CommitSale(t)).db.sales
           == s.db.sales + [Sale(top.item, top.user, top.seller, s.db.items[top.item].current)]
      && (Raised(OnItem(s.db.bids, top.item)) ==>
            OnItem(s.db.bids, top.item) != [] && top == Latest(s.db.bids, top.item))
  {
    ReachableInv(es);
    var s := After(INITIAL, es);
    var top := PcOf(s, t).top;
    assert FreshPc(s, PcOf(s, t));
    assert top in s.db.bids;
    TopIsCurrent(s.db.bids, top.item, s.db.items[top.item].starting, top);
    if Raised(OnItem(s.db.bids, top.item)) {
      TopOfRaised(s.db.bids, top.item, s.db.items[top.item].starting, top);
    }
  }

  /** The sale is at the price its item had when `log` had been committed, and goes to a bidder at
      that price: the last one whenever the last bid raised it. */
  ghost predicate FairSale(log: seq<Bid>, sale: Sale, starting: int) {
    && OnItem(log, sale.item) != [] && sale.price == LastAmount(log, sale.item, starting)
    && (exists top :: SaleOf(log, sale, top))
    && (Raised(OnItem(log, sale.item)) ==> SaleOf(log, sale, Latest(log, sale.item)))
  }

  lemma TopSaleIsFair(log: seq<Bid>, sale: Sale, starting: int, top: Bid)
    requires Rising(OnItem(log, sale.item), starting) && SaleOf(log, sale, top)
    ensures FairSale(log, sale, starting)
  {
    TopIsCurrent(log, sale.item, starting, top);
    if Raised(OnItem(log, sale.item)) {
      TopOfRaised(log, sale.item, starting, top);
    }
  }

  /** Every sale any run has recorded was fair when it was committed: no bid got in between the
      sale's reading of the top row and its commit. */
  lemma SalesAreFair(es: seq<Event>, k: nat)
    requires IsRun(INITIAL, es) && k < |After(INITIAL, es).db.sales|
    ensures var db := After(INITIAL, es).db;
      && k < |db.soldAt| && db.soldAt[k] <= |db.bids| && db.sales[k].item in db.items
      && FairSale(db.bids[..db.soldAt[k]], db.sales[k], db.items[db.sales[k].item].starting)
  {
    ReachableInv(es);
    var s := After(INITIAL, es);
    assert SaleIsTop(s, k);
    RecordedIsFair(s, s.db.soldAt[k], s.db.sales[k]);
  }

  lemma RecordedIsFair(s: State, n: nat, sale: Sale)
    requires Priced(s) && n <= |s.db.bids| && exists top :: SaleOf(s.db.bids[..n], sale, top)
    ensures sale.item in s.db.items && FairSale(s.db.bids[..n], sale, s.db.items[sale.item].starting)
  {
    var log, late := s.db.bids[..n], s.db.bids[n..];
    var top :| SaleOf(log, sale, top);
    assert s.db.bids == log + late;
    assert top in s.db.bids;
    PrefixRises(log, late, sale.item, s.db.items[sale.item].starting);
    TopSaleIsFair(log, sale, s.db.items[sale.item].starting, top);
  }

  // ----- Progress -----

  /** The two mutexes never deadlock: the holder of bid_mutex can always take a step. */
  lemma HolderCanStep(es: seq<Event>, t: Tid) returns (e: Event)
    requires IsRun(INITIAL, es) && After(INITIAL, es).bidMutex == Some(t)
    ensures ThreadOf(e) == Some(t) && Enabled(After(INITIAL, es), e)
  {
    ReachableInv(es);
    var pc := PcOf(After(INITIAL, es), t);
    e := match pc
      case BidParsed(_) => BeginBid(t)
      case BidBegun(_) => ReadPrice(t)
      case PriceRead(_, _) => CheckPrice(t)
      case BidAccepted(_, _) => WriteBid(t)
      case BidWritten(_, _) => CommitBid(t)
      case BidCommitted(_) => LockWs(t)
      case Broadcasting(_, todo) => if todo == [] then UnlockWs(t) else SendNext(t)
      case BroadcastDone(_) => UnlockBid(t)
      case _ => FailBid(t, 400);
  }

  lemma TopCanBeRead(s: State, item: int) returns (row: Option<Bid>)
    requires Priced(s)
    ensures if row.Some? then IsTop(s.db.bids, item, row.value) else OnItem(s.db.bids, item) == []
  {
    row := None;
    if OnItem(s.db.bids, item) != [] {
      var k := LatestIsLast(s.db.bids, item);
      assert s.db.bids[k] in s.db.bids;
      LatestIsTop(s.db.bids, item, s.db.items[item].starting, s.db.bids[k]);
      row := Some(s.db.bids[k]);
    }
  }

  /** Nor does the connection: whoever has its transaction open can go on without failing. */
  lemma TxnCanStep(es: seq<Event>, t: Tid) returns (e: Event)
    requires IsRun(INITIAL, es) && After(INITIAL, es).txn == Some(t)
    ensures ThreadOf(e) == Some(t) && Enabled(After(INITIAL, es), e) && !e.FailBid? && !e.FailSale?
  {
    ReachableInv(es);
    var s := After(INITIAL, es);
    assert InTxn(PcOf(s, t));
    match PcOf(s, t)
    case BidBegun(_) => e := ReadPrice(t);
    case PriceRead(_, _) => e := CheckPrice(t);
    case BidAccepted(_, _) => e := WriteBid(t);
    case BidWritten(_, _) => e := CommitBid(t);
    case TopRead(_) => e := CommitSale(t);
    case SaleBegun(item) =>
      var row := TopCanBeRead(s, item);
      e := ReadTop(t, row);
  }

  // ----- A tie -----

  lemma {:induction false} RunSnoc(s: State, es: seq<Event>, e: Event)
    requires IsRun(s, es) && Enabled(After(s, es), e)
    ensures IsRun(s, es + [e]) && After(s, es + [e]) == Apply(After(s, es), e)
    decreases |es|
  {
    if es == [] {
      assert [e][1..] == [];
      assert es + [e] == [e];
    } else {
      assert (es + [e])[0] == es[0] && (es + [e])[1..] == es[1..] + [e];
      RunSnoc(Apply(s, es[0]), es[1..], e);
    }
  }

  lemma BidIsRead(es: seq<Event>, t: Tid, b: Bid) returns (more: seq<Event>)
    requires IsRun(INITIAL, es) && ValidRequest(b)
    requires var s := After(INITIAL, es);
      s.bidMutex.None? && s.txn.None? && PcOf(s, t).Idle? && b.item in s.db.items
    ensures IsRun(INITIAL, more)
    ensures var s := After(INITIAL, es);
      After(INITIAL, more) == s.(bidMutex := Some(t), txn := Some(t),
                                 pcs := s.pcs[t := PriceRead(b, s.db.items[b.item].current)])
  {
    var s := After(INITIAL, es);
    RunSnoc(INITIAL, es, LockBid(t));
    more := es + [LockBid(t)];
    RunSnoc(INITIAL, more, ParseBid(t, b));
    more := more + [ParseBid(t, b)];
    RunSnoc(INITIAL, more, BeginBid(t));
    more := more + [BeginBid(t)];
    RunSnoc(INITIAL, more, ReadPrice(t));
    more := more + [ReadPrice(t)];
    var price := s.db.items[b.item].current;
    assert s.pcs[t := BidParsed(b)][t := BidBegun(b)][t := PriceRead(b, price)] == s.pcs[t := PriceRead(b, price)];
  }

  lemma BidIsCommitted(es: seq<Event>, t: Tid, b: Bid, price: int) returns (more: seq<Event>)
    requires IsRun(INITIAL, es)
    requires var s := After(INITIAL, es);
      s.txn == Some(t) && PcOf(s, t) == PriceRead(b, price) && Above(b.amount, price) && Insertable(s.db.bids, b)
    ensures IsRun(INITIAL, more)
    ensures var s := After(INITIAL, es);
      After(INITIAL, more) == s.(db := AddBid(s.db, b), txn := None, pcs := s.pcs[t := BidCommitted(b)])
  {
    var s := After(INITIAL, es);
    RunSnoc(INITIAL, es, CheckPrice(t));
    more := es + [CheckPrice(t)];
    RunSnoc(INITIAL, more, WriteBid(t));
    more := more + [WriteBid(t)];
    RunSnoc(INITIAL, more, CommitBid(t));
    more := more + [CommitBid(t)];
    assert s.pcs[t := BidAccepted(b, price)][t := BidWritten(b, price)][t := BidCommitted(b)]
        == s.pcs[t := BidCommitted(b)];
  }

  lemma BidIsAnnounced(es: seq<Event>, t: Tid, b: Bid) returns (more: seq<Event>)
    requires IsRun(INITIAL, es)
    requires var s := After(INITIAL, es);
      PcOf(s, t) == BidCommitted(b) && s.wsMutex.None? && s.txn.None? && s.feed.clients == []
    ensures IsRun(INITIAL, more)
    ensures var s := After(INITIAL, es);
      After(INITIAL, more) == s.(bidMutex := None, pcs := s.pcs[t := Done(200)],
                                 feed := s.feed.(sent := s.feed.sent + 1))
  {
    var s := After(INITIAL, es);
    RunSnoc(INITIAL, es, LockWs(t));
    more := es + [LockWs(t)];
    RunSnoc(INITIAL, more, UnlockWs(t));
    more := more + [UnlockWs(t)];
    RunSnoc(INITIAL, more, UnlockBid(t));
    more := more + [UnlockBid(t)];
    assert s.pcs[t := Broadcasting(b, [])][t := BroadcastDone(b)][t := Done(200)] == s.pcs[t := Done(200)];
  }

  predicate Quiet(s: State) { s.bidMutex.None? && s.wsMutex.None? && s.txn.None? && s.feed.clients == [] }

  /** Nobody is connected: a valid bid above the current price goes through from start to end. */
  lemma BidSucceeds(es: seq<Event>, t: Tid, b: Bid) returns (more: seq<Event>)
    requires IsRun(INITIAL, es) && ValidRequest(b)
    requires var s := After(INITIAL, es);
      && Quiet(s) && PcOf(s, t).Idle? && b.item in s.db.items && Insertable(s.db.bids, b)
      && Above(b.amount, s.db.items[b.item].current)
    ensures IsRun(INITIAL, more)
    ensures var s, s' := After(INITIAL, es), After(INITIAL, more);
      Quiet(s') && s'.db == AddBid(s.db, b) && s'.pcs == s.pcs[t := Done(200)]
  {
    var s := After(INITIAL, es);
    var price := s.db.items[b.item].current;
    more := BidIsRead(es, t, b);
    more := BidIsCommitted(more, t, b, price);
    more := BidIsAnnounced(more, t, b);
    assert s.pcs[t := PriceRead(b, price)][t := BidCommitted(b)][t := Done(200)] == s.pcs[t := Done(200)];
  }

  /** Two bids one after the other, the second above what was stored of the first. */
  lemma TwoBids(starting: real, a: Bid, b: Bid) returns (es: seq<Event>)
    requires ValidRequest(a) && ValidRequest(b) && a.item == b.item && FitsColumn(ToCents(starting))
    requires Above(a.amount, ToCents(starting)) && Above(b.amount, Cents(a)) && !SameKey(a, b)
    requires FitsColumn(Cents(a)) && FitsColumn(Cents(b))
    ensures IsRun(INITIAL, es)
    ensures var s := After(INITIAL, es); Quiet(s) && s.db.bids == [a, b] && s.pcs.Keys == {1, 2}
  {
    RunSnoc(INITIAL, [], CreateAuction(a.item, starting));
    es := [] + [CreateAuction(a.item, starting)];
    es := BidSucceeds(es, 1, a);
    es := BidSucceeds(es, 2, b);
  }

  /** 100.004 over 100.00 passes the guard and is stored as 100.00: the sale may then go to the
      earlier bidder although a later bid was accepted. */
  lemma TieGoesToEither() returns (es: seq<Event>, t: Tid, first: Bid, second: Bid)
    ensures IsRun(INITIAL, es) && first.user != second.user && first.item == second.item
    ensures var s := After(INITIAL, es);
      && s.db.bids == [first, second] && first.amount < second.amount && PcOf(s, t).SaleBegun?
      && Enabled(s, ReadTop(t, Some(first))) && Enabled(s, ReadTop(t, Some(second)))
  {
    first, second, t := Bid(7, 1, 100.0, 5), Bid(8, 1, 100.004, 5), 3;
    assert ToCents(50.0) == 5000 && Cents(first) == 10000 && Cents(second) == 10000;
    es := TwoBids(50.0, first, second);
    RunSnoc(INITIAL, es, BeginSale(t, 1));
    es := es + [BeginSale(t, 1)];
  }
}
