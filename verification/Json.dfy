/** The JSON loader: one loop with an explicit stack, one register for the pending key,
    and containers that are put into their parents before they are filled. */
module Json {
  import opened Options
  import opened JsonLexer

  /** A primitive, or a container by its place in the store. */
  datatype Value = P(p: Prim) | Ref(id: nat)

  datatype Node = ListNode(items: seq<Value>) | DictNode(entries: map<Prim, Value>)

  /** The loop's variables: top is the container being filled, stack those around it. */
  datatype Machine = Machine(stack: seq<nat>, top: Option<nat>, key: Option<Prim>, store: seq<Node>)

  datatype Outcome = Going(m: Machine) | Finished(v: Value, m: Machine) | Failed

  datatype Result = Ok(v: Value, store: seq<Node>) | SyntaxError

  // ---------- The loop as a function ----------

  /** Appends v to a list; in a dict v becomes the key, or completes the pending pair. */
  function Deliver(m: Machine, id: nat, v: Value): Machine {
    if id >= |m.store| then m
    else match m.store[id]
      case ListNode(items) => m.(store := m.store[id := ListNode(items + [v])])
      case DictNode(entries) =>
        if m.key.Some? then m.(store := m.store[id := DictNode(entries[m.key.value := v])], key := None)
        else if v.P? then m.(key := Some(v.p)) else m
  }

  function Enter(m: Machine, id: nat, node: Node): Machine {
    var next := |m.store|;
    Deliver(m.(store := m.store + [node]), id, Ref(next)).(stack := m.stack + [id], top := Some(next))
  }

  function Leave(m: Machine): Machine
    requires m.stack != []
  {
    m.(stack := m.stack[..|m.stack| - 1], top := Some(m.stack[|m.stack| - 1]))
  }

  predicate WantsKey(m: Machine, id: nat) { id < |m.store| && m.store[id].DictNode? && m.key.None? }

  function HandleOpen(m: Machine, node: Node): Outcome {
    if m.top.None? then Going(m.(store := m.store + [node], top := Some(|m.store|)))
    else if WantsKey(m, m.top.value) then Failed
    else Going(Enter(m, m.top.value, node))
  }

  function Handle(m: Machine, token: Token): Outcome {
    match token
    case Primitive(p) => if m.top.None? then Finished(P(p), m) else Going(Deliver(m, m.top.value, P(p)))
    case OpenList => HandleOpen(m, ListNode([]))
    case OpenDict => HandleOpen(m, DictNode(map[]))
    case Close =>
      if m.top.None? then Failed
      else if m.stack == [] then Finished(Ref(m.top.value), m)
      else Going(Leave(m))
    case Skip => Going(m)
    case Bad => Failed
  }

  predicate IsSpace(c: char) { c == ' ' || '\t' <= c <= 13 as char }

  function EatSpace(s: Stream): Stream
    decreases Left(s)
  {
    if IsSpace(s.cur) then EatSpace(Next(s)) else s
  }

  function Finish(s: Stream, m: Machine, v: Option<Value>): Result {
    if EatSpace(s).cur != NUL || v.None? || m.stack != [] then SyntaxError else Ok(v.value, m.store)
  }

  function TopValue(m: Machine): Option<Value> { if m.top.Some? then Some(Ref(m.top.value)) else None }

  function Loop(s: Stream, m: Machine): Result
    decreases Left(s)
  {
    if s.cur == NUL then Finish(s, m, TopValue(m))
    else
      LexShrinks(s);
      var (token, s') := Lex(s);
      match Handle(m, token)
      case Going(m') => Loop(s', m')
      case Finished(v, m') => Finish(s', m', Some(v))
      case Failed => SyntaxError
  }

  const EMPTY := Machine([], None, None, [])

  function Load(text: string): Result { Loop(Open(text), EMPTY) }

  // ---------- The recursive grammar ----------

  datatype Doc = Scalar(v: Scalar) | Arr(ws: string, elems: Elems) | Obj(ws: string, members: Members)

  datatype Elems = NoElems | Elem(before: string, doc: Doc, after: string, more: Elems)

  datatype Members =
    | NoMembers
    | Member(before: string, key: seq<Part>, mid: string, colon: string, doc: Doc, after: string, more: Members)

  predicate IsWhite(w: string) { forall i :: 0 <= i < |w| ==> w[i] in {' ', '\t', '\n', '\r'} }

  predicate ValidDoc(d: Doc) {
    match d
    case Scalar(v) => ValidScalar(v)
    case Arr(ws, elems) => IsWhite(ws) && ValidElems(elems)
    case Obj(ws, members) => IsWhite(ws) && ValidMembers(members)
  }

  predicate ValidElems(es: Elems) {
    match es
    case NoElems => true
    case Elem(before, doc, after, more) => IsWhite(before) && ValidDoc(doc) && IsWhite(after) && ValidElems(more)
  }

  predicate ValidMembers(ms: Members) {
    match ms
    case NoMembers => true
    case Member(before, key, mid, colon, doc, after, more) =>
      && IsWhite(before) && ValidScalar(SString(key)) && IsWhite(mid) && IsWhite(colon)
      && ValidDoc(doc) && IsWhite(after) && ValidMembers(more)
  }

  function Render(d: Doc): string {
    match d
    case Scalar(v) => RenderScalar(v)
    case Arr(ws, elems) => "[" + (ws + (RenderElems(elems, true) + "]"))
    case Obj(ws, members) => "{" + (ws + (RenderMembers(members, true) + "}"))
  }

  function Comma(first: bool): string { if first then "" else "," }

  function RenderElems(es: Elems, first: bool): string {
    match es
    case NoElems => ""
    case Elem(before, doc, after, more) => (Comma(first) + before) + (Render(doc) + (after + RenderElems(more, false)))
  }

  function RenderMembers(ms: Members, first: bool): string {
    match ms
    case NoMembers => ""
    case Member(before, key, mid, colon, doc, after, more) =>
      (Comma(first) + before) +
      (RenderScalar(SString(key)) + ((mid + ":" + colon) + (Render(doc) + (after + RenderMembers(more, false)))))
  }

  datatype Tree = Leaf(p: Prim) | TList(items: seq<Tree>) | TDict(entries: map<Prim, Tree>)

  function ValueOf(d: Doc): Tree
    requires ValidDoc(d)
  {
    match d
    case Scalar(v) => Leaf(ScalarValue(v))
    case Arr(_, elems) => TList(ElemValues(elems))
    case Obj(_, members) => TDict(MemberValues(members, map[]))
  }

  function ElemValues(es: Elems): seq<Tree>
    requires ValidElems(es)
  {
    match es
    case NoElems => []
    case Elem(_, doc, _, more) => [ValueOf(doc)] + ElemValues(more)
  }

  /** Members from left to right: the last of two equal keys wins. */
  function MemberValues(ms: Members, acc: map<Prim, Tree>): map<Prim, Tree>
    requires ValidMembers(ms)
  {
    match ms
    case NoMembers => acc
    case Member(_, key, _, _, doc, _, more) => MemberValues(more, acc[KeyValue(key) := ValueOf(doc)])
  }

  function KeyValue(key: seq<Part>): Prim
    requires ValidScalar(SString(key))
  {
    ScalarValue(SString(key))
  }

  // ---------- What a value in the store stands for ----------

  function Reify(store: seq<Node>, v: Value, from: nat): Tree
    decreases if from <= |store| then |store| - from else 0
  {
    match v
    case P(p) => Leaf(p)
    case Ref(id) =>
      if from <= id < |store| then
        match store[id]
        case ListNode(items) => TList(seq(|items|, k requires 0 <= k < |items| => Reify(store, items[k], id + 1)))
        case DictNode(entries) => TDict(map p | p in entries :: Reify(store, entries[p], id + 1))
      else Leaf(PNull)
  }

  predicate RefWithin(v: Value, lo: nat, hi: nat) { v.Ref? ==> lo <= v.id < hi }

  ghost predicate NodeWithin(n: Node, lo: nat, hi: nat) {
    match n
    case ListNode(items) => forall k :: 0 <= k < |items| ==> RefWithin(items[k], lo, hi)
    case DictNode(entries) => forall p <- entries :: RefWithin(entries[p], lo, hi)
  }

  /** Containers from lo to hi refer only to later ones below hi. */
  ghost predicate Region(store: seq<Node>, lo: nat, hi: nat) {
    hi <= |store| && forall i :: lo <= i < hi ==> NodeWithin(store[i], i + 1, hi)
  }

  /** v lies in the region and stands for t. */
  ghost predicate Means(store: seq<Node>, lo: nat, hi: nat, v: Value, t: Tree) {
    RefWithin(v, lo, hi) && Reify(store, v, lo) == t
  }

  ghost predicate Agree(s: seq<Node>, s': seq<Node>, lo: nat, hi: nat) {
    hi <= |s| && hi <= |s'| && forall i :: lo <= i < hi ==> s[i] == s'[i]
  }

  /** What a value stands for depends only on its region. */
  lemma {:induction false} ReifyAgrees(s: seq<Node>, s': seq<Node>, lo: nat, hi: nat, v: Value, from: nat, from': nat)
    requires Region(s, lo, hi) && Agree(s, s', lo, hi) && RefWithin(v, lo, hi)
    requires v.Ref? ==> from <= v.id && from' <= v.id
    ensures Reify(s, v, from) == Reify(s', v, from')
    decreases if v.Ref? then hi - v.id + 1 else 0
  {
    if v.Ref? {
      var id := v.id;
      assert NodeWithin(s[id], id + 1, hi);
      match s[id]
      case ListNode(items) =>
        forall k | 0 <= k < |items| ensures Reify(s, items[k], id + 1) == Reify(s', items[k], id + 1) {
          ReifyAgrees(s, s', lo, hi, items[k], id + 1, id + 1);
        }
      case DictNode(entries) =>
        forall p | p in entries ensures Reify(s, entries[p], id + 1) == Reify(s', entries[p], id + 1) {
          ReifyAgrees(s, s', lo, hi, entries[p], id + 1, id + 1);
        }
    }
  }

  lemma MeansKept(s: seq<Node>, s': seq<Node>, lo: nat, mid: nat, hi: nat, hi': nat, v: Value, t: Tree)
    requires lo <= mid && hi <= hi' && Region(s, mid, hi) && Agree(s, s', mid, hi) && Means(s, mid, hi, v, t)
    ensures Means(s', lo, hi', v, t)
  {
    ReifyAgrees(s, s', mid, hi, v, mid, lo);
  }

  lemma NodeWiden(n: Node, lo: nat, hi: nat, hi': nat)
    requires NodeWithin(n, lo, hi) && hi <= hi'
    ensures NodeWithin(n, lo, hi')
  {
  }

  lemma RegionJoins(s: seq<Node>, s': seq<Node>, lo: nat, mid: nat, hi: nat)
    requires lo <= mid <= hi && Region(s, lo, mid) && Agree(s, s', lo, mid) && Region(s', mid, hi)
    ensures Region(s', lo, hi)
  {
    hide NodeWithin;
    forall i | lo <= i < hi ensures NodeWithin(s'[i], i + 1, hi) {
      if i < mid { NodeWiden(s[i], i + 1, mid, hi); }
    }
  }

  // ---------- What reading a document does to the machine ----------

  function Built(d: Doc, m: Machine): Machine
    requires ValidDoc(d) && m.top.Some?
  {
    match d
    case Scalar(v) => Deliver(m, m.top.value, P(ScalarValue(v)))
    case Arr(_, elems) => LeaveInner(BuiltElems(elems, Enter(m, m.top.value, ListNode([]))))
    case Obj(_, members) => LeaveInner(BuiltMembers(members, Enter(m, m.top.value, DictNode(map[]))))
  }

  function LeaveInner(m: Machine): Machine { if m.stack == [] then m else Leave(m) }

  function BuiltElems(es: Elems, m: Machine): Machine
    requires ValidElems(es)
  {
    match es
    case NoElems => m
    case Elem(_, doc, _, more) => if m.top.None? then m else BuiltElems(more, Built(doc, m))
  }

  function BuiltMembers(ms: Members, m: Machine): Machine
    requires ValidMembers(ms)
  {
    match ms
    case NoMembers => m
    case Member(_, key, _, _, doc, _, more) =>
      if m.top.None? then m
      else
        var k := Deliver(m, m.top.value, P(KeyValue(key)));
        if k.top.None? then k else BuiltMembers(more, Built(doc, k))
  }

  /** A value may come: a dict being filled has its key, and only then is there one. */
  ghost predicate Ready(m: Machine, id: nat) {
    m.top == Some(id) && id < |m.store| && (m.store[id].DictNode? <==> m.key.Some?)
  }

  function BuiltValue(d: Doc, m: Machine): Value
    requires ValidDoc(d)
  {
    if d.Scalar? then P(ScalarValue(d.v)) else Ref(|m.store|)
  }

  /** m' is m with v delivered; the key register is empty and only new containers were added. */
  ghost predicate Adds(m: Machine, m': Machine, id: nat, v: Value) {
    && id < |m.store| <= |m'.store|
    && m'.stack == m.stack && m'.top == m.top && m'.key == None
    && (forall i :: 0 <= i < |m.store| && i != id ==> m'.store[i] == m.store[i])
    && m'.store[id] == Deliver(m, id, v).store[id]
  }

  /** Same for a container still being filled, whose node changes. */
  ghost predicate Fills(m: Machine, m': Machine, id: nat) {
    && id < |m.store| <= |m'.store|
    && m'.stack == m.stack && m'.top == m.top && m'.key == None
    && (forall i :: 0 <= i < |m.store| && i != id ==> m'.store[i] == m.store[i])
  }

  /** items stand for ts, each within the region after id. */
  ghost predicate ListMeans(store: seq<Node>, id: nat, items: seq<Value>, ts: seq<Tree>) {
    && |items| == |ts| && Region(store, id + 1, |store|)
    && forall k :: 0 <= k < |ts| ==> Means(store, id + 1, |store|, items[k], ts[k])
  }

  ghost predicate DictMeans(store: seq<Node>, id: nat, entries: map<Prim, Value>, ts: map<Prim, Tree>) {
    && entries.Keys == ts.Keys && Region(store, id + 1, |store|)
    && forall p <- ts :: Means(store, id + 1, |store|, entries[p], ts[p])
  }

  lemma DeliverAdds(m: Machine, id: nat, v: Value)
    requires Ready(m, id)
    ensures Adds(m, Deliver(m, id, v), id, v) && |Deliver(m, id, v).store| == |m.store|
  {
  }

  lemma EnterFacts(m: Machine, id: nat, node: Node)
    requires Ready(m, id)
    ensures var e, n := Enter(m, id, node), |m.store|;
            && |e.store| == n + 1 && e.store[n] == node && e.stack == m.stack + [id] && e.top == Some(n)
            && e.key == None
            && (forall i :: 0 <= i < n && i != id ==> e.store[i] == m.store[i])
            && e.store[id] == Deliver(m, id, Ref(n)).store[id]
  {
  }

  lemma LeaveFacts(m: Machine, e: Machine, f: Machine, id: nat, v: Value)
    requires Ready(m, id) && v == Ref(|m.store|) && Fills(e, f, |m.store|)
    requires e.stack == m.stack + [id] && e.key == None && |e.store| == |m.store| + 1
    requires forall i :: 0 <= i < |m.store| && i != id ==> e.store[i] == m.store[i]
    requires e.store[id] == Deliver(m, id, v).store[id]
    ensures Adds(m, LeaveInner(f), id, v) && LeaveInner(f).store == f.store
  {
    assert (m.stack + [id])[..|m.stack|] == m.stack;
  }

  /** The value delivered for a document stands for what the grammar says. */
  lemma {:induction false} BuiltAdds(d: Doc, m: Machine, id: nat)
    requires ValidDoc(d) && Ready(m, id)
    ensures var (m', v, n) := (Built(d, m), BuiltValue(d, m), |m.store|);
            && Adds(m, m', id, v)
            && Region(m'.store, n, |m'.store|)
            && Means(m'.store, n, |m'.store|, v, ValueOf(d))
    decreases d, 1
  {
    hide Deliver, Region, Reify, Adds, Ready, LeaveInner, Enter, ListMeans, DictMeans;
    match d
    case Scalar(v) =>
      DeliverAdds(m, id, P(ScalarValue(v)));
      ReadyTop(m, id);
      ScalarMeans(Deliver(m, id, P(ScalarValue(v))).store, |m.store|, ScalarValue(v));
    case Arr(_, elems) =>
      ReadyTop(m, id);
      var n := |m.store|;
      var e := Enter(m, id, ListNode([]));
      EnterFacts(m, id, ListNode([]));
      EmptyMeans(e.store, n);
      ElemsAdd(elems, e, n, [], []);
      var f := BuiltElems(elems, e);
      LeaveFacts(m, e, f, id, Ref(n));
      assert [] + ElemValues(elems) == ElemValues(elems);
      ListStands(f.store, n, ElemValues(elems));
    case Obj(_, members) =>
      ReadyTop(m, id);
      var n := |m.store|;
      var e := Enter(m, id, DictNode(map[]));
      EnterFacts(m, id, DictNode(map[]));
      EmptyMeans(e.store, n);
      MembersAdd(members, e, n, map[], map[]);
      var f := BuiltMembers(members, e);
      LeaveFacts(m, e, f, id, Ref(n));
      DictStands(f.store, n, MemberValues(members, map[]));
  }

  lemma ReadyTop(m: Machine, id: nat)
    requires Ready(m, id)
    ensures m.top == Some(id)
  {
  }

  lemma ScalarMeans(store: seq<Node>, n: nat, p: Prim)
    requires |store| == n
    ensures Region(store, n, n) && Reify(store, P(p), n) == Leaf(p)
  {
  }

  lemma EmptyMeans(store: seq<Node>, n: nat)
    requires |store| == n + 1
    ensures ListMeans(store, n, [], []) && DictMeans(store, n, map[], map[])
  {
  }

  lemma ListStands(store: seq<Node>, n: nat, ts: seq<Tree>)
    requires n < |store| && store[n].ListNode? && ListMeans(store, n, store[n].items, ts)
    ensures Region(store, n, |store|) && Means(store, n, |store|, Ref(n), TList(ts))
  {
    var items := store[n].items;
    assert NodeWithin(store[n], n + 1, |store|);
    assert seq(|items|, k requires 0 <= k < |items| => Reify(store, items[k], n + 1)) == ts;
  }

  lemma DictStands(store: seq<Node>, n: nat, ts: map<Prim, Tree>)
    requires n < |store| && store[n].DictNode? && DictMeans(store, n, store[n].entries, ts)
    ensures Region(store, n, |store|) && Means(store, n, |store|, Ref(n), TDict(ts))
  {
    var entries := store[n].entries;
    assert NodeWithin(store[n], n + 1, |store|);
    assert (map p | p in entries :: Reify(store, entries[p], n + 1)) == ts;
  }

  lemma {:induction false} ElemsAdd(es: Elems, m: Machine, id: nat, items: seq<Value>, ts: seq<Tree>)
    requires ValidElems(es) && m.top == Some(id) && m.key == None
    requires id < |m.store| && m.store[id] == ListNode(items) && ListMeans(m.store, id, items, ts)
    ensures var m' := BuiltElems(es, m);
            && Fills(m, m', id) && m'.store[id].ListNode?
            && ListMeans(m'.store, id, m'.store[id].items, ts + ElemValues(es))
    decreases es, 0
  {
    hide Region, Reify, ListMeans, Adds, Built;
    match es
    case NoElems => assert ts + [] == ts;
    case Elem(_, doc, _, more) =>
      BuiltAdds(doc, m, id);
      var m1 := Built(doc, m);
      AddsToList(m, m1, id, items, ts, BuiltValue(doc, m), ValueOf(doc));
      ElemsAdd(more, m1, id, items + [BuiltValue(doc, m)], ts + [ValueOf(doc)]);
      assert (ts + [ValueOf(doc)]) + ElemValues(more) == ts + ([ValueOf(doc)] + ElemValues(more));
  }

  lemma AddsToList(m: Machine, m1: Machine, id: nat, items: seq<Value>, ts: seq<Tree>, v: Value, t: Tree)
    requires Adds(m, m1, id, v) && m.store[id] == ListNode(items) && ListMeans(m.store, id, items, ts)
    requires Region(m1.store, |m.store|, |m1.store|) && Means(m1.store, |m.store|, |m1.store|, v, t)
    ensures Fills(m, m1, id) && m1.store[id] == ListNode(items + [v])
    ensures ListMeans(m1.store, id, items + [v], ts + [t])
  {
    hide Region, Means, Reify;
    var n, n1 := |m.store|, |m1.store|;
    RegionJoins(m.store, m1.store, id + 1, n, n1);
    forall k | 0 <= k < |ts| ensures Means(m1.store, id + 1, n1, items[k], ts[k]) {
      MeansKept(m.store, m1.store, id + 1, id + 1, n, n1, items[k], ts[k]);
    }
    MeansKept(m1.store, m1.store, id + 1, n, n1, n1, v, t);
  }

  lemma {:induction false} MembersAdd(ms: Members, m: Machine, id: nat, entries: map<Prim, Value>, ts: map<Prim, Tree>)
    requires ValidMembers(ms) && m.top == Some(id) && m.key == None
    requires id < |m.store| && m.store[id] == DictNode(entries) && DictMeans(m.store, id, entries, ts)
    ensures var m' := BuiltMembers(ms, m);
            && Fills(m, m', id) && m'.store[id].DictNode?
            && DictMeans(m'.store, id, m'.store[id].entries, MemberValues(ms, ts))
    decreases ms, 0
  {
    hide Region, Reify, DictMeans, Adds, Built, KeyValue;
    match ms
    case NoMembers =>
    case Member(_, key, _, _, doc, _, more) =>
      var p := KeyValue(key);
      var k := Deliver(m, id, P(p));
      assert k == m.(key := Some(p));
      BuiltAdds(doc, k, id);
      var m1 := Built(doc, k);
      var v := BuiltValue(doc, k);
      AddsToDict(k, m1, id, entries, ts, p, v, ValueOf(doc));
      MembersAdd(more, m1, id, entries[p := v], ts[p := ValueOf(doc)]);
  }

  lemma AddsToDict(m: Machine, m1: Machine, id: nat, entries: map<Prim, Value>, ts: map<Prim, Tree>, p: Prim, v: Value,
                   t: Tree)
    requires Adds(m, m1, id, v) && m.store[id] == DictNode(entries) && m.key == Some(p)
    requires DictMeans(m.store, id, entries, ts)
    requires Region(m1.store, |m.store|, |m1.store|) && Means(m1.store, |m.store|, |m1.store|, v, t)
    ensures Fills(m, m1, id) && m1.store[id] == DictNode(entries[p := v])
    ensures DictMeans(m1.store, id, entries[p := v], ts[p := t])
  {
    hide Region, Means, Reify;
    var n, n1 := |m.store|, |m1.store|;
    RegionJoins(m.store, m1.store, id + 1, n, n1);
    forall q | q in ts ensures Means(m1.store, id + 1, n1, entries[q], ts[q]) {
      MeansKept(m.store, m1.store, id + 1, id + 1, n, n1, entries[q], ts[q]);
    }
    MeansKept(m1.store, m1.store, id + 1, n, n1, n1, v, t);
  }

  // ---------- The loop over a written document ----------

  lemma LoopStep(s: Stream, m: Machine)
    requires s.cur != NUL
    ensures var (token, s') := Lex(s);
            match Handle(m, token)
            case Going(m') => Loop(s, m) == Loop(s', m')
            case Finished(v, m') => Loop(s, m) == Finish(s', m', Some(v))
            case Failed => Loop(s, m) == SyntaxError
  {
  }

  predicate AllSkip(w: string) { forall i :: 0 <= i < |w| ==> IsSkip(w[i]) }

  lemma {:induction false} SkipReads(w: string, t: string, m: Machine)
    requires AllSkip(w)
    ensures Loop(Open(w + t), m) == Loop(Open(t), m)
  {
    hide Loop, Handle;
    if w == "" {
      assert w + t == t;
    } else {
      assert w + t == [w[0]] + (w[1..] + t);
      OpenCons(w[0], w[1..] + t);
      LoopStep(Open(w + t), m);
      HandleSkip(m);
      SkipReads(w[1..], t, m);
    }
  }

  lemma HandleSkip(m: Machine)
    ensures Handle(m, Skip) == Going(m)
  {
  }

  lemma ScalarLoop(v: Scalar, t: string, m: Machine, id: nat)
    requires ValidScalar(v) && (v.SNumber? ==> EndsNumber(t)) && m.top == Some(id)
    ensures Loop(Open(RenderScalar(v) + t), m) == Loop(Open(t), Deliver(m, id, P(ScalarValue(v))))
  {
    hide Loop, Deliver, RenderScalar, Lex;
    ScalarReads(v, t);
    LoopStep(Open(RenderScalar(v) + t), m);
  }

  lemma BracketReads(c: char, t: string)
    requires c in {'[', '{', ']', '}'}
    ensures var s := Open([c] + t);
            s.cur != NUL && Lex(s) == (if c == '[' then OpenList else if c == '{' then OpenDict else Close, Open(t))
  {
    OpenCons(c, t);
  }

  lemma OpenLoop(c: char, t: string, m: Machine, id: nat)
    requires c in {'[', '{'} && Ready(m, id)
    ensures Loop(Open([c] + t), m) == Loop(Open(t), Enter(m, id, if c == '[' then ListNode([]) else DictNode(map[])))
  {
    hide Loop, Lex, Enter;
    BracketReads(c, t);
    LoopStep(Open([c] + t), m);
  }

  lemma CloseLoop(c: char, t: string, m: Machine)
    requires c in {']', '}'} && m.top.Some? && m.stack != []
    ensures Loop(Open([c] + t), m) == Loop(Open(t), LeaveInner(m))
  {
    hide Loop, Lex;
    BracketReads(c, t);
    LoopStep(Open([c] + t), m);
  }

  lemma WhiteSkips(w: string)
    requires IsWhite(w)
    ensures AllSkip(w) && AllSkip(Comma(true) + w) && AllSkip(Comma(false) + w)
  {
  }

  /** Inside a container a document is read as Built says. */
  lemma {:induction false} DocLoop(d: Doc, t: string, m: Machine, id: nat)
    requires ValidDoc(d) && Ready(m, id) && EndsNumber(t)
    ensures Loop(Open(Render(d) + t), m) == Loop(Open(t), Built(d, m))
    decreases d, 2
  {
    hide Loop, Deliver, RenderScalar, LeaveInner, Enter, Region, Reify, EndsNumber;
    match d
    case Scalar(v) => ScalarLoop(v, t, m, id);
    case Arr(ws, elems) =>
      var e, n := Enter(m, id, ListNode([])), |m.store|;
      var inner := RenderElems(elems, true);
      assert Render(d) + t == ['['] + (ws + (inner + ("]" + t)));
      OpenLoop('[', ws + (inner + ("]" + t)), m, id);
      WhiteSkips(ws);
      SkipReads(ws, inner + ("]" + t), e);
      EnterFacts(m, id, ListNode([]));
      EmptyMeans(e.store, n);
      CloserEnds(']', t);
      ElemsLoop(elems, true, "]" + t, e, n, [], []);
      ElemsAdd(elems, e, n, [], []);
      assert "]" + t == [']'] + t;
      CloseLoop(']', t, BuiltElems(elems, e));
    case Obj(ws, members) =>
      var e, n := Enter(m, id, DictNode(map[])), |m.store|;
      var inner := RenderMembers(members, true);
      assert Render(d) + t == ['{'] + (ws + (inner + ("}" + t)));
      OpenLoop('{', ws + (inner + ("}" + t)), m, id);
      WhiteSkips(ws);
      SkipReads(ws, inner + ("}" + t), e);
      EnterFacts(m, id, DictNode(map[]));
      EmptyMeans(e.store, n);
      CloserEnds('}', t);
      MembersLoop(members, true, "}" + t, e, n, map[], map[]);
      MembersAdd(members, e, n, map[], map[]);
      assert "}" + t == ['}'] + t;
      CloseLoop('}', t, BuiltMembers(members, e));
  }

  lemma CloserEnds(c: char, t: string)
    requires c in {']', '}'}
    ensures EndsNumber([c] + t)
  {
  }

  /** White space, a comma or a closer ends a number. */
  lemma AfterEndsNumber(after: string, rest: string)
    requires IsWhite(after) && EndsNumber(rest)
    ensures EndsNumber(after + rest)
  {
    if after != "" { assert (after + rest)[0] == after[0]; } else { assert after + rest == rest; }
  }

  lemma MoreElemsEnd(es: Elems, t: string)
    requires EndsNumber(t)
    ensures EndsNumber(RenderElems(es, false) + t)
  {
    if es.NoElems? { assert RenderElems(es, false) + t == t; } else { assert (RenderElems(es, false) + t)[0] == ','; }
  }

  lemma MoreMembersEnd(ms: Members, t: string)
    requires EndsNumber(t)
    ensures EndsNumber(RenderMembers(ms, false) + t)
  {
    if ms.NoMembers? {
      assert RenderMembers(ms, false) + t == t;
    } else {
      assert (RenderMembers(ms, false) + t)[0] == ',';
    }
  }

  lemma {:induction false} ElemsLoop(es: Elems, first: bool, t: string, m: Machine, id: nat, items: seq<Value>,
                                     ts: seq<Tree>)
    requires ValidElems(es) && m.top == Some(id) && m.key == None && EndsNumber(t)
    requires id < |m.store| && m.store[id] == ListNode(items) && ListMeans(m.store, id, items, ts)
    ensures Loop(Open(RenderElems(es, first) + t), m) == Loop(Open(t), BuiltElems(es, m))
    decreases es, 1
  {
    hide Loop, Region, Reify, ListMeans, Adds, Built, Render, EndsNumber, Comma, Means;
    match es
    case NoElems => assert RenderElems(es, first) + t == t;
    case Elem(before, doc, after, more) =>
      var rest := RenderElems(more, false) + t;
      assert RenderElems(es, first) + t == (Comma(first) + before) + (Render(doc) + (after + rest));
      MoreElemsEnd(more, t);
      ElemLoop(before, doc, after, first, rest, m, id, items, ts);
      ElemsLoop(more, false, t, Built(doc, m), id, items + [BuiltValue(doc, m)], ts + [ValueOf(doc)]);
  }

  /** One element, with what separates it from the one before. */
  lemma {:induction false} ElemLoop(before: string, doc: Doc, after: string, first: bool, rest: string, m: Machine,
                                    id: nat, items: seq<Value>, ts: seq<Tree>)
    requires IsWhite(before) && ValidDoc(doc) && IsWhite(after) && EndsNumber(rest)
    requires m.top == Some(id) && m.key == None
    requires id < |m.store| && m.store[id] == ListNode(items) && ListMeans(m.store, id, items, ts)
    ensures var m1 := Built(doc, m);
            && Loop(Open((Comma(first) + before) + (Render(doc) + (after + rest))), m) == Loop(Open(rest), m1)
            && m1.top == Some(id) && m1.key == None && id < |m1.store|
            && m1.store[id] == ListNode(items + [BuiltValue(doc, m)])
            && ListMeans(m1.store, id, items + [BuiltValue(doc, m)], ts + [ValueOf(doc)])
    decreases doc, 3
  {
    hide Loop, Region, Reify, ListMeans, Adds, Built, Render, EndsNumber, Comma, Means;
    WhiteSkips(before);
    SkipReads(Comma(first) + before, Render(doc) + (after + rest), m);
    AfterEndsNumber(after, rest);
    DocLoop(doc, after + rest, m, id);
    BuiltAdds(doc, m, id);
    var m1 := Built(doc, m);
    WhiteSkips(after);
    SkipReads(after, rest, m1);
    AddsToList(m, m1, id, items, ts, BuiltValue(doc, m), ValueOf(doc));
  }

  lemma ColonSkips(mid: string, colon: string)
    requires IsWhite(mid) && IsWhite(colon)
    ensures AllSkip(mid + ":" + colon)
  {
  }

  lemma {:induction false} MembersLoop(ms: Members, first: bool, t: string, m: Machine, id: nat,
                                       entries: map<Prim, Value>, ts: map<Prim, Tree>)
    requires ValidMembers(ms) && m.top == Some(id) && m.key == None && EndsNumber(t)
    requires id < |m.store| && m.store[id] == DictNode(entries) && DictMeans(m.store, id, entries, ts)
    ensures Loop(Open(RenderMembers(ms, first) + t), m) == Loop(Open(t), BuiltMembers(ms, m))
    decreases ms, 1
  {
    hide Loop, Region, Reify, DictMeans, Adds, Built, Render, RenderScalar, EndsNumber, Comma, ScalarValue;
    match ms
    case NoMembers => assert RenderMembers(ms, first) + t == t;
    case Member(before, key, mid, colon, doc, after, more) =>
      var rest := RenderMembers(more, false) + t;
      var head, name, sep := Comma(first) + before, RenderScalar(SString(key)), mid + ":" + colon;
      var tail := Render(doc) + (after + rest);
      assert RenderMembers(ms, first) + t == head + (name + (sep + tail));
      WhiteSkips(before);
      SkipReads(head, name + (sep + tail), m);
      ScalarLoop(SString(key), sep + tail, m, id);
      var p := KeyValue(key);
      var k := Deliver(m, id, P(p));
      assert k == m.(key := Some(p));
      ColonSkips(mid, colon);
      SkipReads(sep, tail, k);
      MoreMembersEnd(more, t);
      AfterEndsNumber(after, rest);
      DocLoop(doc, after + rest, k, id);
      BuiltAdds(doc, k, id);
      var m1 := Built(doc, k);
      var v := BuiltValue(doc, k);
      WhiteSkips(after);
      SkipReads(after, rest, m1);
      AddsToDict(k, m1, id, entries, ts, p, v, ValueOf(doc));
      MembersLoop(more, false, t, m1, id, entries[p := v], ts[p := ValueOf(doc)]);
  }

  // ---------- Whole documents ----------

  lemma {:induction false} SpaceEaten(w: string)
    requires IsWhite(w)
    ensures EatSpace(Open(w)).cur == NUL
  {
    if w != "" {
      assert w == [w[0]] + w[1..];
      OpenCons(w[0], w[1..]);
      SpaceEaten(w[1..]);
    }
  }

  lemma FinishOk(w: string, m: Machine, v: Value)
    requires IsWhite(w) && m.stack == []
    ensures Finish(Open(w), m, Some(v)) == Ok(v, m.store)
  {
    SpaceEaten(w);
  }

  /** A container at the top: entered with nothing around it. */
  lemma TopLoop(c: char, t: string)
    requires c in {'[', '{'}
    ensures Loop(Open([c] + t), EMPTY) ==
            Loop(Open(t), Machine([], Some(0), None, [if c == '[' then ListNode([]) else DictNode(map[])]))
  {
    hide Loop, Lex;
    BracketReads(c, t);
    LoopStep(Open([c] + t), EMPTY);
    var node := if c == '[' then ListNode([]) else DictNode(map[]);
    var none: seq<Node> := [];
    assert none + [node] == [node];
    assert HandleOpen(EMPTY, node) == Going(Machine([], Some(0), None, [node]));
  }

  lemma TopClose(c: char, w: string, m: Machine)
    requires c in {']', '}'} && IsWhite(w) && m.top == Some(0) && m.stack == []
    ensures Loop(Open([c] + w), m) == Ok(Ref(0), m.store)
  {
    hide Loop, Lex, Finish;
    BracketReads(c, w);
    LoopStep(Open([c] + w), m);
    FinishOk(w, m, Ref(0));
  }

  lemma WhiteEndsNumber(w: string)
    requires IsWhite(w)
    ensures EndsNumber(w)
  {
  }

  ghost predicate Loads(r: Result, t: Tree) { r.Ok? && Reify(r.store, r.v, 0) == t }

  lemma ListLoads(ws: string, elems: Elems, w: string)
    requires ValidDoc(Arr(ws, elems)) && IsWhite(w)
    ensures Loads(Loop(Open(Render(Arr(ws, elems)) + w), EMPTY), ValueOf(Arr(ws, elems)))
  {
    hide Loop, Region, Reify;
    var m := Machine([], Some(0), None, [ListNode([])]);
    var inner := RenderElems(elems, true);
    assert Render(Arr(ws, elems)) + w == ['['] + (ws + (inner + ("]" + w)));
    TopLoop('[', ws + (inner + ("]" + w)));
    WhiteSkips(ws);
    SkipReads(ws, inner + ("]" + w), m);
    EmptyMeans(m.store, 0);
    CloserEnds(']', w);
    assert "]" + w == [']'] + w;
    ElemsLoop(elems, true, "]" + w, m, 0, [], []);
    ElemsAdd(elems, m, 0, [], []);
    var f := BuiltElems(elems, m);
    TopClose(']', w, f);
    assert [] + ElemValues(elems) == ElemValues(elems);
    ListStands(f.store, 0, ElemValues(elems));
  }

  lemma DictLoads(ws: string, members: Members, w: string)
    requires ValidDoc(Obj(ws, members)) && IsWhite(w)
    ensures Loads(Loop(Open(Render(Obj(ws, members)) + w), EMPTY), ValueOf(Obj(ws, members)))
  {
    hide Loop, Region, Reify;
    var m := Machine([], Some(0), None, [DictNode(map[])]);
    var inner := RenderMembers(members, true);
    assert Render(Obj(ws, members)) + w == ['{'] + (ws + (inner + ("}" + w)));
    TopLoop('{', ws + (inner + ("}" + w)));
    WhiteSkips(ws);
    SkipReads(ws, inner + ("}" + w), m);
    EmptyMeans(m.store, 0);
    CloserEnds('}', w);
    assert "}" + w == ['}'] + w;
    MembersLoop(members, true, "}" + w, m, 0, map[], map[]);
    MembersAdd(members, m, 0, map[], map[]);
    var f := BuiltMembers(members, m);
    TopClose('}', w, f);
    DictStands(f.store, 0, MemberValues(members, map[]));
  }

  lemma ScalarLoads(v: Scalar, w: string)
    requires ValidScalar(v) && IsWhite(w)
    ensures Loads(Loop(Open(RenderScalar(v) + w), EMPTY), Leaf(ScalarValue(v)))
  {
    hide Loop, RenderScalar, Lex, ScalarValue, Finish;
    WhiteEndsNumber(w);
    ScalarReads(v, w);
    LoopStep(Open(RenderScalar(v) + w), EMPTY);
    FinishOk(w, EMPTY, P(ScalarValue(v)));
  }

  /** Every valid document, with white space around it, loads as the grammar's value. */
  lemma LoaderAgreesWithGrammar(before: string, d: Doc, after: string)
    requires IsWhite(before) && ValidDoc(d) && IsWhite(after)
    ensures Loads(Load(before + (Render(d) + after)), ValueOf(d))
  {
    hide Loop, Reify;
    WhiteSkips(before);
    SkipReads(before, Render(d) + after, EMPTY);
    match d
    case Scalar(v) => ScalarLoads(v, after);
    case Arr(ws, elems) => ListLoads(ws, elems, after);
    case Obj(ws, members) => DictLoads(ws, members, after);
  }

  lemma LoopEnds(m: Machine)
    ensures Loop(Open(""), m) == Finish(Open(""), m, TopValue(m))
  {
  }
}
