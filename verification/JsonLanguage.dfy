/** Exactly which texts the loader accepts: more than the grammar has, and how much more. */
module JsonLanguage {
  import opened Options
  import opened JsonNumber
  import opened JsonLexer
  import opened Json

  // ---------- Containers cut off by the end of the input ----------

  /** The end of the input is taken as the end of a container exactly at the top. */
  lemma EndAccepts(m: Machine)
    ensures Loop(Open(""), m).Ok? <==> m.top.Some? && m.stack == []
    ensures Loop(Open(""), m).Ok? ==> Loop(Open(""), m) == Ok(Ref(m.top.value), m.store)
  {
    LoopEnds(m);
    assert EatSpace(Open("")) == Open("");
  }

  /** A list or object without its last bracket. */
  function CutOff(d: Doc): string
    requires !d.Scalar?
  {
    match d
    case Arr(ws, elems) => "[" + (ws + RenderElems(elems, true))
    case Obj(ws, members) => "{" + (ws + RenderMembers(members, true))
  }

  lemma CutOffIs(d: Doc)
    requires !d.Scalar?
    ensures Render(d) == CutOff(d) + (if d.Arr? then "]" else "}")
  {
  }

  /** The body of a list, up to the end of the input, from a machine that has just entered it. */
  lemma CutListEnds(ws: string, elems: Elems, m: Machine, id: nat)
    requires ValidDoc(Arr(ws, elems)) && m.top == Some(id) && m.key == None
    requires |m.store| == id + 1 && m.store[id] == ListNode([])
    ensures var f := BuiltElems(elems, m);
            && Loop(Open(ws + RenderElems(elems, true)), m) == Loop(Open(""), f)
            && f.top == m.top && f.stack == m.stack && id < |f.store|
            && Region(f.store, id, |f.store|) && Means(f.store, id, |f.store|, Ref(id), TList(ElemValues(elems)))
  {
    hide Loop, Region, Reify;
    var inner := RenderElems(elems, true);
    WhiteSkips(ws);
    SkipReads(ws, inner, m);
    EmptyMeans(m.store, id);
    assert inner + "" == inner;
    ElemsLoop(elems, true, "", m, id, [], []);
    ElemsAdd(elems, m, id, [], []);
    assert [] + ElemValues(elems) == ElemValues(elems);
    ListStands(BuiltElems(elems, m).store, id, ElemValues(elems));
  }

  lemma CutDictEnds(ws: string, members: Members, m: Machine, id: nat)
    requires ValidDoc(Obj(ws, members)) && m.top == Some(id) && m.key == None
    requires |m.store| == id + 1 && m.store[id] == DictNode(map[])
    ensures var f := BuiltMembers(members, m);
            && Loop(Open(ws + RenderMembers(members, true)), m) == Loop(Open(""), f)
            && f.top == m.top && f.stack == m.stack && id < |f.store|
            && Region(f.store, id, |f.store|)
            && Means(f.store, id, |f.store|, Ref(id), TDict(MemberValues(members, map[])))
  {
    hide Loop, Region, Reify;
    var inner := RenderMembers(members, true);
    WhiteSkips(ws);
    SkipReads(ws, inner, m);
    EmptyMeans(m.store, id);
    assert inner + "" == inner;
    MembersLoop(members, true, "", m, id, map[], map[]);
    MembersAdd(members, m, id, map[], map[]);
    DictStands(BuiltMembers(members, m).store, id, MemberValues(members, map[]));
  }

  /** Every list and object at the top loads the same value without its last bracket. */
  lemma CutOffLoads(d: Doc)
    requires ValidDoc(d) && !d.Scalar?
    ensures Loads(Load(CutOff(d)), ValueOf(d))
  {
    hide Loop, Region, Reify;
    match d
    case Arr(ws, elems) =>
      var m := Machine([], Some(0), None, [ListNode([])]);
      assert CutOff(d) == ['['] + (ws + RenderElems(elems, true));
      TopLoop('[', ws + RenderElems(elems, true));
      CutListEnds(ws, elems, m, 0);
      EndAccepts(BuiltElems(elems, m));
    case Obj(ws, members) =>
      var m := Machine([], Some(0), None, [DictNode(map[])]);
      assert CutOff(d) == ['{'] + (ws + RenderMembers(members, true));
      TopLoop('{', ws + RenderMembers(members, true));
      CutDictEnds(ws, members, m, 0);
      EndAccepts(BuiltMembers(members, m));
  }

  /** One level further down it does not. */
  lemma NestedCutOffIsRefused(d: Doc)
    requires ValidDoc(d) && !d.Scalar?
    ensures Load("[" + CutOff(d)) == SyntaxError
  {
    hide Loop, Region, Reify, Enter;
    var top := Machine([], Some(0), None, [ListNode([])]);
    assert "[" + CutOff(d) == ['['] + CutOff(d);
    TopLoop('[', CutOff(d));
    assert Ready(top, 0);
    match d
    case Arr(ws, elems) =>
      assert CutOff(d) == ['['] + (ws + RenderElems(elems, true));
      OpenLoop('[', ws + RenderElems(elems, true), top, 0);
      EnterFacts(top, 0, ListNode([]));
      CutListEnds(ws, elems, Enter(top, 0, ListNode([])), 1);
      EndAccepts(BuiltElems(elems, Enter(top, 0, ListNode([]))));
    case Obj(ws, members) =>
      assert CutOff(d) == ['{'] + (ws + RenderMembers(members, true));
      OpenLoop('{', ws + RenderMembers(members, true), top, 0);
      EnterFacts(top, 0, DictNode(map[]));
      CutDictEnds(ws, members, Enter(top, 0, DictNode(map[])), 1);
      EndAccepts(BuiltMembers(members, Enter(top, 0, DictNode(map[]))));
  }

  // ---------- The accepted texts, as lists of tokens ----------

  /** A token and the text after it. */
  datatype Read = Read(token: Token, after: Stream)

  /** The tokens of a text, as far as they can be read. */
  function Reads(s: Stream): seq<Read>
    decreases Left(s)
  {
    if s.cur == NUL then []
    else
      LexShrinks(s);
      var (token, s') := Lex(s);
      [Read(token, s')] + (if token == Bad then [] else Reads(s'))
  }

  predicate IsItem(t: Token) { t.Primitive? || t.OpenList? || t.OpenDict? }

  /** Which containers are open after some tokens, the innermost last; true is an object. */
  function Nesting(rs: seq<Read>): seq<bool> {
    if rs == [] then []
    else
      var before, t := Nesting(rs[..|rs| - 1]), rs[|rs| - 1].token;
      if t == OpenList then before + [false]
      else if t == OpenDict then before + [true]
      else if t == Close && before != [] then before[..|before| - 1]
      else before
  }

  predicate InObject(nesting: seq<bool>) { nesting != [] && nesting[|nesting| - 1] }

  /** How many items stood directly in objects. */
  function ObjectItems(rs: seq<Read>): nat {
    if rs == [] then 0
    else
      var before, t := rs[..|rs| - 1], rs[|rs| - 1].token;
      ObjectItems(before) + (if IsItem(t) && InObject(Nesting(before)) then 1 else 0)
  }

  /** In an object, after an even number of object items: one register serves all depths. */
  predicate KeyIsDue(rs: seq<Read>) { InObject(Nesting(rs)) && ObjectItems(rs) % 2 == 0 }

  /** Token i is acceptable where it stands. */
  predicate Allowed(rs: seq<Read>, i: nat)
    requires i < |rs|
  {
    var t, before := rs[i].token, rs[..i];
    && t != Bad
    && (t == Close ==> Nesting(before) != [])
    && (t == OpenList || t == OpenDict ==> !KeyIsDue(before))
  }

  /** Token i completes the value at the top. */
  predicate Completes(rs: seq<Read>, i: nat)
    requires i < |rs|
  {
    var t, before := rs[i].token, rs[..i];
    (t.Primitive? && Nesting(before) == []) || (t == Close && |Nesting(before)| == 1)
  }

  /** Nothing but white space follows. */
  predicate OnlySpace(s: Stream) { EatSpace(s).cur == NUL }

  /** Up to the token that completes the first value all are allowed, and only white space
      follows it; or none does, all are allowed, and one container is open at the end. */
  ghost predicate Accepted(rs: seq<Read>) {
    if exists i :: 0 <= i < |rs| && Completes(rs, i) then
      exists i :: 0 <= i < |rs| && Completes(rs, i) && OnlySpace(rs[i].after) &&
        AllowedTo(rs, i + 1) && NoneCompletes(rs, i)
    else AllowedTo(rs, |rs|) && |Nesting(rs)| == 1
  }

  ghost predicate AllowedTo(rs: seq<Read>, n: nat)
    requires n <= |rs|
  {
    forall i :: 0 <= i < n ==> Allowed(rs, i)
  }

  ghost predicate NoneCompletes(rs: seq<Read>, n: nat)
    requires n <= |rs|
  {
    forall i :: 0 <= i < n ==> !Completes(rs, i)
  }

  // ---------- The machine goes by the tokens ----------

  predicate IsDictAt(m: Machine, id: nat) { id < |m.store| && m.store[id].DictNode? }

  /** The open containers of the machine, outermost first. */
  function OpenContainers(m: Machine): seq<nat> { if m.top.Some? then m.stack + [m.top.value] else [] }

  /** The machine after some tokens, none of which completed the value. */
  ghost predicate Follows(m: Machine, rs: seq<Read>) {
    && (m.top.None? ==> m.stack == [])
    && |OpenContainers(m)| == |Nesting(rs)|
    && (forall k :: 0 <= k < |OpenContainers(m)| ==>
          OpenContainers(m)[k] < |m.store| && (IsDictAt(m, OpenContainers(m)[k]) <==> Nesting(rs)[k]))
    && (m.key.Some? <==> ObjectItems(rs) % 2 == 1)
  }

  lemma NestingStep(rs: seq<Read>, r: Read)
    ensures var t, before := r.token, Nesting(rs);
            Nesting(rs + [r]) ==
              if t == OpenList then before + [false]
              else if t == OpenDict then before + [true]
              else if t == Close && before != [] then before[..|before| - 1]
              else before
    ensures ObjectItems(rs + [r]) == ObjectItems(rs) + (if IsItem(r.token) && InObject(Nesting(rs)) then 1 else 0)
  {
    assert (rs + [r])[..|rs|] == rs;
  }

  lemma DeliverKeepsKinds(m: Machine, id: nat, v: Value)
    ensures var d := Deliver(m, id, v);
            && |d.store| == |m.store| && d.stack == m.stack && d.top == m.top
            && forall k: nat :: IsDictAt(d, k) <==> IsDictAt(m, k)
    ensures id < |m.store| && (IsDictAt(m, id) && m.key.None? ==> v.P?) ==>
              (Deliver(m, id, v).key.Some? <==> (m.key.Some? != IsDictAt(m, id)))
  {
  }

  lemma PrimitiveFollows(m: Machine, rs: seq<Read>, r: Read)
    requires Follows(m, rs) && r.token.Primitive? && m.top.Some?
    ensures Follows(Deliver(m, m.top.value, P(r.token.p)), rs + [r])
  {
    hide Deliver, Nesting, ObjectItems;
    NestingStep(rs, r);
    DeliverKeepsKinds(m, m.top.value, P(r.token.p));
    TopIsInnermost(m, rs);
  }

  lemma TopIsInnermost(m: Machine, rs: seq<Read>)
    requires Follows(m, rs)
    ensures m.top.Some? <==> Nesting(rs) != []
    ensures m.top.Some? ==> m.top.value < |m.store| && (InObject(Nesting(rs)) <==> IsDictAt(m, m.top.value))
    ensures m.top.Some? ==> (WantsKey(m, m.top.value) <==> KeyIsDue(rs))
    ensures m.top.Some? ==> |m.stack| == |Nesting(rs)| - 1
  {
    hide Nesting, ObjectItems;
    if m.top.Some? { assert OpenContainers(m)[|m.stack|] == m.top.value; }
  }

  lemma OpenFollows(m: Machine, rs: seq<Read>, r: Read, node: Node)
    requires Follows(m, rs) && (r.token == OpenList || r.token == OpenDict) && !KeyIsDue(rs)
    requires node == if r.token == OpenList then ListNode([]) else DictNode(map[])
    ensures HandleOpen(m, node).Going? && Follows(HandleOpen(m, node).m, rs + [r])
  {
    hide Nesting, ObjectItems, Follows, Enter, InObject, KeyIsDue, OpenContainers, IsDictAt, WantsKey;
    NestingStep(rs, r);
    TopIsInnermost(m, rs);
    if m.top.Some? { EnterFollows(m, rs, node); } else { FirstOpened(m, rs, node); }
    Opened(HandleOpen(m, node).m, m, rs, r);
  }

  /** A container entered, whatever else happened to the machine. */
  lemma Opened(e: Machine, m: Machine, rs: seq<Read>, r: Read)
    requires Follows(m, rs) && e.top.Some?
    requires OpenContainers(e) == OpenContainers(m) + [|m.store|] && |e.store| == |m.store| + 1
    requires forall k :: 0 <= k < |OpenContainers(m)| ==> (IsDictAt(e, OpenContainers(m)[k]) <==> Nesting(rs)[k])
    requires IsDictAt(e, |m.store|) <==> r.token == OpenDict
    requires Nesting(rs + [r]) == Nesting(rs) + [r.token == OpenDict]
    requires e.key.Some? <==> ObjectItems(rs + [r]) % 2 == 1
    ensures Follows(e, rs + [r])
  {
    hide Nesting, ObjectItems, OpenContainers, IsDictAt;
  }

  lemma FirstOpened(m: Machine, rs: seq<Read>, node: Node)
    requires Follows(m, rs) && m.top.None?
    ensures var e := m.(store := m.store + [node], top := Some(|m.store|));
            && OpenContainers(m) == [] && OpenContainers(e) == OpenContainers(m) + [|m.store|]
            && (IsDictAt(e, |m.store|) <==> node.DictNode?)
            && Nesting(rs) == [] && !InObject(Nesting(rs)) && (m.key.Some? <==> ObjectItems(rs) % 2 == 1)
  {
    hide Nesting, ObjectItems;
  }

  lemma EnterFollows(m: Machine, rs: seq<Read>, node: Node)
    requires Follows(m, rs) && m.top.Some? && !KeyIsDue(rs)
    ensures var e := Enter(m, m.top.value, node);
            && e.top == Some(|m.store|) && OpenContainers(e) == OpenContainers(m) + [|m.store|]
            && |e.store| == |m.store| + 1
            && (forall k :: 0 <= k < |OpenContainers(m)| ==> (IsDictAt(e, OpenContainers(m)[k]) <==> Nesting(rs)[k]))
            && (IsDictAt(e, |m.store|) <==> node.DictNode?)
            && (e.key.Some? <==> (m.key.Some? != InObject(Nesting(rs))))
            && (m.key.Some? <==> ObjectItems(rs) % 2 == 1)
  {
    hide Deliver, Nesting, ObjectItems;
    TopIsInnermost(m, rs);
    var grown, id := m.(store := m.store + [node]), m.top.value;
    DeliverKeepsKinds(grown, id, Ref(|m.store|));
    var d := Deliver(grown, id, Ref(|m.store|));
    assert Enter(m, id, node) == d.(stack := m.stack + [id], top := Some(|m.store|));
    assert forall k :: 0 <= k < |m.store| ==> (IsDictAt(grown, k) <==> IsDictAt(m, k));
    assert IsDictAt(grown, |m.store|) <==> node.DictNode?;
    var e := Enter(m, id, node);
    assert e.store == d.store && e.key == d.key;
    assert forall k: nat :: IsDictAt(e, k) <==> IsDictAt(d, k);
    assert WantsKey(m, id) <==> IsDictAt(m, id) && m.key.None?;
  }

  lemma CloseFollows(m: Machine, rs: seq<Read>, r: Read)
    requires Follows(m, rs) && r.token == Close && |Nesting(rs)| > 1
    ensures m.stack != [] && Follows(Leave(m), rs + [r])
  {
    hide Nesting, ObjectItems;
    NestingStep(rs, r);
    TopIsInnermost(m, rs);
    var n := |m.stack| - 1;
    assert OpenContainers(Leave(m)) == OpenContainers(m)[..n + 1];
  }

  /** One token: what the machine does with it, and what the tokens say of it. */
  lemma HandleFollows(m: Machine, rs: seq<Read>, k: nat)
    requires k < |rs| && Follows(m, rs[..k])
    ensures match Handle(m, rs[k].token)
            case Going(m') => Allowed(rs, k) && !Completes(rs, k) && Follows(m', rs[..k + 1])
            case Finished(v, m') => Allowed(rs, k) && Completes(rs, k) && m'.stack == []
            case Failed => !Allowed(rs, k)
  {
    hide Nesting, ObjectItems, Follows, Deliver, HandleOpen, Leave;
    var r, before := rs[k], rs[..k];
    assert rs[..k + 1] == before + [r];
    TopIsInnermost(m, before);
    NoTop(m, before);
    match r.token
    case Primitive(p) => if m.top.Some? { PrimitiveFollows(m, before, r); }
    case OpenList => OpenCase(m, before, r, ListNode([]));
    case OpenDict => OpenCase(m, before, r, DictNode(map[]));
    case Close => if m.top.Some? && m.stack != [] { CloseFollows(m, before, r); }
    case Skip => SkipFollows(m, before, r);
    case Bad =>
  }

  lemma NoTop(m: Machine, rs: seq<Read>)
    requires Follows(m, rs)
    ensures m.top.None? ==> m.stack == []
  {
  }

  lemma OpenCase(m: Machine, rs: seq<Read>, r: Read, node: Node)
    requires Follows(m, rs) && (r.token == OpenList || r.token == OpenDict)
    requires node == if r.token == OpenList then ListNode([]) else DictNode(map[])
    ensures if KeyIsDue(rs) then HandleOpen(m, node).Failed?
            else HandleOpen(m, node).Going? && Follows(HandleOpen(m, node).m, rs + [r])
  {
    hide Nesting, ObjectItems, Follows, Enter;
    TopIsInnermost(m, rs);
    if KeyIsDue(rs) { KeyNeedsTop(rs); } else { OpenFollows(m, rs, r, node); }
  }

  lemma KeyNeedsTop(rs: seq<Read>)
    requires KeyIsDue(rs)
    ensures Nesting(rs) != []
  {
  }

  lemma SkipFollows(m: Machine, rs: seq<Read>, r: Read)
    requires Follows(m, rs) && r.token == Skip
    ensures Follows(m, rs + [r])
  {
    hide Nesting, ObjectItems;
    NestingStep(rs, r);
  }

  /** From token k on, the loop accepts exactly when the tokens say so. */
  lemma {:induction false} LoopAccepts(rs: seq<Read>, k: nat, s: Stream, m: Machine)
    requires k <= |rs| && rs[k..] == Reads(s) && Follows(m, rs[..k]) && AllowedTo(rs, k) && NoneCompletes(rs, k)
    ensures Loop(s, m).Ok? <==> Accepted(rs)
    decreases |rs| - k
  {
    hide Loop, Follows, Nesting, Completes, Allowed, Lex, Handle, Finish;
    if s.cur == NUL {
      AtEnd(rs, s, m);
    } else {
      assert Reads(s)[0] == rs[k] && Reads(s)[0].token == Lex(s).0 && Reads(s)[0].after == Lex(s).1;
      LoopStep(s, m);
      HandleFollows(m, rs, k);
      match Handle(m, rs[k].token)
      case Going(m') =>
        NotBad(rs, k);
        assert rs[k + 1..] == rs[k..][1..] == Reads(Lex(s).1);
        LoopAccepts(rs, k + 1, Lex(s).1, m');
      case Finished(v, m') =>
        FinishIs(Lex(s).1, m', v);
        FirstCompletes(rs, k);
      case Failed =>
        NotAllowedAt(rs, k);
    }
  }

  lemma NotBad(rs: seq<Read>, k: nat)
    requires k < |rs| && Allowed(rs, k)
    ensures rs[k].token != Bad
  {
  }

  lemma FinishIs(s: Stream, m: Machine, v: Value)
    requires m.stack == []
    ensures Finish(s, m, Some(v)).Ok? <==> OnlySpace(s)
  {
  }

  lemma FirstCompletes(rs: seq<Read>, k: nat)
    requires k < |rs| && Completes(rs, k) && Allowed(rs, k) && AllowedTo(rs, k) && NoneCompletes(rs, k)
    ensures Accepted(rs) <==> OnlySpace(rs[k].after)
  {
    hide Completes, Allowed, OnlySpace, Nesting;
    assert AllowedTo(rs, k + 1);
  }

  lemma NotAllowedAt(rs: seq<Read>, k: nat)
    requires k < |rs| && !Allowed(rs, k) && NoneCompletes(rs, k)
    ensures !Accepted(rs)
  {
    hide Completes, Allowed, OnlySpace, Nesting;
  }

  lemma AtEnd(rs: seq<Read>, s: Stream, m: Machine)
    requires s.cur == NUL && Follows(m, rs[..|rs|]) && AllowedTo(rs, |rs|) && NoneCompletes(rs, |rs|)
    ensures Loop(s, m).Ok? <==> Accepted(rs)
  {
    hide Completes, Allowed, Nesting, ObjectItems;
    assert rs[..|rs|] == rs;
    TopIsInnermost(m, rs);
    assert Loop(s, m) == Finish(s, m, TopValue(m));
  }

  /** The loader accepts a text exactly when its tokens are accepted. */
  lemma AcceptsExactly(text: string)
    ensures Load(text).Ok? <==> Accepted(Reads(Open(text)))
  {
    hide Loop, Reads, Accepted;
    var rs := Reads(Open(text));
    assert rs[0..] == rs && rs[..0] == [];
    LoopAccepts(rs, 0, Open(text), EMPTY);
  }

  /** A text of number characters alone loads exactly if it is a number's. */
  lemma NumberLoads(first: char, more: string)
    requires (first == '-' || IsDigit(first)) && AllNumberChars(more)
    ensures Load([first] + more).Ok? <==> exists n: Number :: ValidNumber(n) && RenderNumber(n) == [first] + more
  {
    hide Loop, Converts, Finish, Lex, NumberToken, Handle;
    ConvertsExactly([first] + more);
    LexesAsNumber(first, more);
    LoopStep(Open([first] + more), EMPTY);
    NumberHandled([first] + more);
    if Converts([first] + more) { FinishOk("", EMPTY, P(NumberValue([first] + more))); }
  }

  lemma LexesAsNumber(first: char, more: string)
    requires (first == '-' || IsDigit(first)) && AllNumberChars(more)
    ensures var s := Open([first] + more); s.cur != NUL && Lex(s) == (NumberToken([first] + more), Open(""))
  {
    hide NumberToken, Word, StringRest, NumberRest;
    OpenCons(first, more);
    assert more + "" == more;
    NumberReads(more, "", false);
  }

  lemma NumberHandled(text: string)
    ensures Handle(EMPTY, NumberToken(text)) ==
            if Converts(text) then Finished(P(NumberValue(text)), EMPTY) else Failed
  {
    hide Converts, NumberValue;
  }
}
