/** A Kconfig configuration as data: symbols, choices, and the plain recursive
    definition of every value, visibility and choice selection. */
module KconfigGraph {
  import opened Options
  import opened KconfigExpr

  type ChoiceId = nat

  datatype SymType = Unknown | Bool | Tristate | String | Hex | Int

  datatype Default = Default(value: Expr, cond: Option<Expr>)

  datatype Range = Range(low: Atom, high: Atom, cond: Option<Expr>)

  datatype ChoiceDefault = ChoiceDefault(sym: SymId, cond: Option<Expr>)

  /** A symbol as the Kconfig files define it. A prompt is kept as its condition.
      "special" holds the fixed value of n, m, y and environment symbols. */
  datatype SymDef = SymDef(
    name: string,
    typ: SymType,
    prompts: seq<Option<Expr>>,
    defaults: seq<Default>,
    ranges: seq<Range>,
    revDep: Expr,
    choice: Option<ChoiceId>,
    special: Option<string>,
    defined: bool)

  datatype ChoiceDef = ChoiceDef(
    typ: SymType,
    prompts: seq<Option<Expr>>,
    defaults: seq<ChoiceDefault>,
    members: seq<SymId>,
    optional: bool)

  /** Reading and printing integers: int(s, base), hex(n) and str(n). */
  datatype Numbers = Numbers(parse: (string, nat) -> Option<int>, hex: int -> string, dec: int -> string)

  datatype Graph = Graph(syms: seq<SymDef>, choices: seq<ChoiceDef>, modules: bool, numbers: Numbers)

  /** What the user has assigned so far; seen holds the visibilities of special symbols
      that were read before the last assignment, which nothing refreshes any more. */
  datatype Users = Users(
    val: seq<Option<string>>, sel: seq<Option<SymId>>, mode: seq<Option<Tri>>, seen: seq<Option<Tri>>)

  const NO_SYM := SymDef("", Unknown, [], [], [], Leaf(Str("n")), None, None, false)
  const NO_CHOICE := ChoiceDef(Unknown, [], [], [], false)

  function SymOf(g: Graph, s: SymId): SymDef { if s < |g.syms| then g.syms[s] else NO_SYM }

  function ChoiceOf(g: Graph, c: ChoiceId): ChoiceDef { if c < |g.choices| then g.choices[c] else NO_CHOICE }

  function UserVal(u: Users, s: SymId): Option<string> { if s < |u.val| then u.val[s] else None }

  function UserSel(u: Users, c: ChoiceId): Option<SymId> { if c < |u.sel| then u.sel[c] else None }

  function UserMode(u: Users, c: ChoiceId): Option<Tri> { if c < |u.mode| then u.mode[c] else None }

  function UserSeen(u: Users, s: SymId): Option<Tri> { if s < |u.seen| then u.seen[s] else None }

  /** The assignments alone. */
  function Assignments(u: Users): Users { u.(seen := seq(|u.seen|, _ => None)) }

  /** Invalidation passes special symbols over, so only these keep a current visibility. */
  predicate VisIsTracked(g: Graph, s: SymId) {
    SymOf(g, s).special.None? || (SymOf(g, s).prompts == [] && SymOf(g, s).choice.None?)
  }

  /** Invalidation reaches a choice through a member that is not special. */
  predicate Refreshes(g: Graph, c: ChoiceId) {
    exists m :: m in ChoiceOf(g, c).members && SymOf(g, m).special.None?
  }

  /** The visibility of s is computed from caches that are kept current. */
  predicate VisIsKnown(g: Graph, s: SymId) {
    SymOf(g, s).choice.Some? ==> Refreshes(g, SymOf(g, s).choice.value)
  }

  /** No choice has a special symbol among its members. */
  predicate NoSpecialMembers(g: Graph) {
    forall c :: 0 <= c < |g.choices| ==> forall m :: m in g.choices[c].members ==> SymOf(g, m).special.None?
  }

  // ---------- Conditions ----------

  predicate IsTri(t: SymType) { t == Bool || t == Tristate }

  function TriSyms(g: Graph): set<SymId> { set s | 0 <= s < |g.syms| && IsTri(g.syms[s].typ) }

  /** Without modules "m" counts as "y". */
  function Promote(g: Graph, t: Tri): Tri { if t == M && !g.modules then Y else t }

  function PromoteBool(typ: SymType, t: Tri): Tri { if t == M && typ == Bool then Y else t }

  function Cond(g: Graph, v: seq<string>, e: Option<Expr>): Tri {
    if e.None? then Y else Promote(g, Eval(Env(TriSyms(g), v), e.value))
  }

  /** The greatest prompt condition so far; no prompt means invisible. */
  function PromptVis(g: Graph, v: seq<string>, prompts: seq<Option<Expr>>): Tri {
    if prompts == [] then N
    else MaxTri(Promote(g, PromptVis(g, v, prompts[..|prompts| - 1])), Cond(g, v, prompts[|prompts| - 1]))
  }

  function VisType(typ: SymType, t: Tri): Tri { if t == M && typ != Tristate then Y else t }

  // ---------- Choices ----------

  function ChoiceVis(g: Graph, v: seq<string>, c: ChoiceId): Tri {
    VisType(ChoiceOf(g, c).typ, PromptVis(g, v, ChoiceOf(g, c).prompts))
  }

  function SymVis(g: Graph, v: seq<string>, s: SymId): Tri {
    var d := SymOf(g, s);
    var own := PromptVis(g, v, d.prompts);
    VisType(d.typ,
            if d.choice.Some? then MinTri(Promote(g, own), Promote(g, ChoiceVis(g, v, d.choice.value))) else own)
  }

  /** The visibility a choice sees in a member: the one read first, if it was frozen. */
  function MemberVis(g: Graph, u: Users, v: seq<string>, s: SymId): Tri {
    if UserSeen(u, s).Some? then UserSeen(u, s).value else SymVis(g, v, s)
  }

  function Mode(g: Graph, u: Users, v: seq<string>, c: ChoiceId): Tri {
    var wanted :=
      if UserMode(u, c).Some? then UserMode(u, c).value else if ChoiceOf(g, c).optional then N else M;
    PromoteBool(ChoiceOf(g, c).typ, MinTri(Promote(g, wanted), Promote(g, ChoiceVis(g, v, c))))
  }

  function FirstChoiceDefault(g: Graph, v: seq<string>, ds: seq<ChoiceDefault>): Option<SymId> {
    if ds == [] then None
    else if Cond(g, v, ds[0].cond) != N then Some(ds[0].sym)
    else FirstChoiceDefault(g, v, ds[1..])
  }

  function FirstVisible(g: Graph, u: Users, v: seq<string>, ms: seq<SymId>): Option<SymId> {
    if ms == [] then None
    else if MemberVis(g, u, v, ms[0]) != N then Some(ms[0])
    else FirstVisible(g, u, v, ms[1..])
  }

  /** The first default that applies, else the first member. */
  function Preferred(g: Graph, v: seq<string>, c: ChoiceId): SymId
    requires ChoiceOf(g, c).members != []
  {
    var def := FirstChoiceDefault(g, v, ChoiceOf(g, c).defaults);
    if def.Some? then def.value else ChoiceOf(g, c).members[0]
  }

  function SelectionFromDefaults(g: Graph, u: Users, v: seq<string>, c: ChoiceId): Option<SymId> {
    if ChoiceOf(g, c).members == [] then None
    else if MemberVis(g, u, v, Preferred(g, v, c)) != N then Some(Preferred(g, v, c))
    else FirstVisible(g, u, v, ChoiceOf(g, c).members)
  }

  function Selection(g: Graph, u: Users, v: seq<string>, c: ChoiceId): Option<SymId> {
    if Mode(g, u, v, c) != Y then None
    else if UserSel(u, c).Some? && MemberVis(g, u, v, UserSel(u, c).value) == Y then UserSel(u, c)
    else if ChoiceOf(g, c).optional then None
    else SelectionFromDefaults(g, u, v, c)
  }

  // ---------- Values ----------

  function FirstDefault(g: Graph, v: seq<string>, ds: seq<Default>): Option<Default> {
    if ds == [] then None
    else if Cond(g, v, ds[0].cond) != N then Some(ds[0])
    else FirstDefault(g, v, ds[1..])
  }

  function FirstRange(g: Graph, v: seq<string>, rs: seq<Range>): Option<Range> {
    if rs == [] then None
    else if Cond(g, v, rs[0].cond) != N then Some(rs[0])
    else FirstRange(g, v, rs[1..])
  }

  /** The value of a bool or tristate symbol inside choice c. */
  function MemberValue(g: Graph, u: Users, v: seq<string>, s: SymId, c: ChoiceId): Tri {
    PromoteBool(SymOf(g, s).typ,
                if SymVis(g, v, s) == N then N
                else match Mode(g, u, v, c)
                  case Y => if Selection(g, u, v, c) == Some(s) then Y else N
                  case M => if UserVal(u, s) == Some("m") || UserVal(u, s) == Some("y") then M else N
                  case N => N)
  }

  /** What the user or the first default that applies asks for. */
  function OwnTri(g: Graph, u: Users, v: seq<string>, s: SymId): Tri {
    var vis := SymVis(g, v, s);
    var def := FirstDefault(g, v, SymOf(g, s).defaults);
    if vis != N && UserVal(u, s).Some? then MinTri(Promote(g, TriOf(UserVal(u, s).value)), Promote(g, vis))
    else if def.Some? then MinTri(Cond(g, v, Some(def.value.value)), Cond(g, v, def.value.cond))
    else N
  }

  /** The value of a bool or tristate symbol outside any choice. */
  function TriValue(g: Graph, u: Users, v: seq<string>, s: SymId): Tri {
    var own := OwnTri(g, u, v, s);
    var selected := Cond(g, v, Some(SymOf(g, s).revDep));
    PromoteBool(SymOf(g, s).typ, if selected != N then MaxTri(Promote(g, own), selected) else own)
  }

  function Bound(g: Graph, v: seq<string>, a: Atom, base: nat): int {
    var n := g.numbers.parse(AtomStr(Env(TriSyms(g), v), a), base);
    if n.Some? then n.value else 0
  }

  function Shown(g: Graph, typ: SymType, n: int): string {
    if typ == Hex then g.numbers.hex(n) else g.numbers.dec(n)
  }

  function LeafStr(g: Graph, v: seq<string>, e: Expr): string {
    if e.Leaf? then AtomStr(Env(TriSyms(g), v), e.a) else ""
  }

  /** A default outside the active range is moved to the nearer end. */
  function Clamped(g: Graph, typ: SymType, text: string, base: nat, low: int, high: int): string {
    var n := g.numbers.parse(text, base);
    if n.Some? && n.value < low then Shown(g, typ, low)
    else if n.Some? && n.value > high then Shown(g, typ, high)
    else text
  }

  /** The first enabled default that is a number; if there is none, the text of the last
      enabled one, or text if none is enabled. */
  function NumberDefault(g: Graph, v: seq<string>, ds: seq<Default>, base: nat, text: string): (bool, string) {
    if ds == [] then (false, text)
    else if Cond(g, v, ds[0].cond) == N then NumberDefault(g, v, ds[1..], base, text)
    else
      var t := LeafStr(g, v, ds[0].value);
      if g.numbers.parse(t, base).Some? then (true, t) else NumberDefault(g, v, ds[1..], base, t)
  }

  function NumberBase(typ: SymType): nat { if typ == Hex then 16 else 10 }

  function NumberValue(g: Graph, u: Users, v: seq<string>, s: SymId): string {
    var d := SymOf(g, s);
    var base := NumberBase(d.typ);
    var range := FirstRange(g, v, d.ranges);
    var low := if range.Some? then Bound(g, v, range.value.low, base) else 0;
    var high := if range.Some? then Bound(g, v, range.value.high, base) else 0;
    var user := if UserVal(u, s).Some? then g.numbers.parse(UserVal(u, s).value, base) else None;
    if SymVis(g, v, s) != N && user.Some? && (range.None? || low <= user.value <= high) then UserVal(u, s).value
    else
      var (isNumber, text) := NumberDefault(g, v, d.defaults, base, "");
      if isNumber then (if range.Some? then Clamped(g, d.typ, text, base, low, high) else text)
      else if range.Some? && low > 0 then Shown(g, d.typ, low)
      else text
  }

  function StringValue(g: Graph, u: Users, v: seq<string>, s: SymId): string {
    if SymVis(g, v, s) != N && UserVal(u, s).Some? then UserVal(u, s).value
    else
      var def := FirstDefault(g, v, SymOf(g, s).defaults);
      if def.Some? then LeafStr(g, v, def.value.value) else ""
  }

  /** A symbol's value from the values v of the symbols it depends on. */
  function Calc(g: Graph, u: Users, v: seq<string>, s: SymId): string {
    var d := SymOf(g, s);
    if d.special.Some? then d.special.value
    else match d.typ
      case Unknown => d.name
      case String => StringValue(g, u, v, s)
      case Int => NumberValue(g, u, v, s)
      case Hex => NumberValue(g, u, v, s)
      case _ => TriStr(if d.choice.Some? then MemberValue(g, u, v, s, d.choice.value) else TriValue(g, u, v, s))
  }

  // ---------- Well-formed graphs ----------

  /** An assumption about the environment: a bool or tristate environment symbol holds "n",
      "m" or "y". With any other text the comparisons of tristates raise. */
  predicate HoldsTristate(d: SymDef) { d.special.Some? && IsTri(d.typ) ==> d.special.value in ["n", "m", "y"] }

  ghost predicate WellFormedSym(g: Graph, s: SymId)
    requires s < |g.syms|
  {
    var d := g.syms[s];
    && (forall t :: t in SymRefs(g, s) ==> t < |g.syms|)
    && (d.choice.Some? ==> d.choice.value < |g.choices| && s in g.choices[d.choice.value].members)
    && (!IsTri(d.typ) ==> forall i :: 0 <= i < |d.defaults| ==> d.defaults[i].value.Leaf?)
    && HoldsTristate(d)
  }

  ghost predicate WellFormedChoice(g: Graph, c: ChoiceId)
    requires c < |g.choices|
  {
    var d := g.choices[c];
    && (forall t :: t in ChoiceRefs(g, c) ==> t < |g.syms|)
    && (forall m :: m in d.members ==> m < |g.syms| && g.syms[m].choice == Some(c))
    && (forall i :: 0 <= i < |d.defaults| ==> d.defaults[i].sym in d.members)
  }

  /** What reading the Kconfig files guarantees: names resolve, choice defaults are members
      of the choice, only tristate symbols have compound defaults; and HoldsTristate. */
  ghost predicate WellFormed(g: Graph) {
    && (forall s :: 0 <= s < |g.syms| ==> WellFormedSym(g, s))
    && (forall c :: 0 <= c < |g.choices| ==> WellFormedChoice(g, c))
  }

  ghost predicate UsersFit(g: Graph, u: Users) {
    && |u.val| == |u.seen| == |g.syms| && |u.sel| == |u.mode| == |g.choices|
    && (forall s :: 0 <= s < |g.syms| && u.seen[s].Some? ==> !VisIsTracked(g, s))
    && forall c :: 0 <= c < |g.choices| && u.sel[c].Some? ==>
         u.sel[c].value in g.choices[c].members && u.sel[c].value < |g.syms|
  }

  // ---------- Which symbols a value is computed from ----------

  function OptSyms(e: Option<Expr>): set<SymId> { if e.None? then {} else Syms(e.value) }

  function PromptSyms(ps: seq<Option<Expr>>): set<SymId> {
    set i, t | 0 <= i < |ps| && t in OptSyms(ps[i]) :: t
  }

  function DefaultSyms(ds: seq<Default>): set<SymId> {
    set i, t | 0 <= i < |ds| && t in Syms(ds[i].value) + OptSyms(ds[i].cond) :: t
  }

  function RangeSyms(rs: seq<Range>): set<SymId> {
    set i, t | 0 <= i < |rs| && t in AtomSyms(rs[i].low) + AtomSyms(rs[i].high) + OptSyms(rs[i].cond) :: t
  }

  function ChoiceDefaultSyms(ds: seq<ChoiceDefault>): set<SymId> {
    set i, t | 0 <= i < |ds| && t in OptSyms(ds[i].cond) :: t
  }

  function SymRefs(g: Graph, s: SymId): set<SymId> {
    var d := SymOf(g, s);
    PromptSyms(d.prompts) + DefaultSyms(d.defaults) + Syms(d.revDep) + RangeSyms(d.ranges)
  }

  function ChoiceRefs(g: Graph, c: ChoiceId): set<SymId> {
    PromptSyms(ChoiceOf(g, c).prompts) + ChoiceDefaultSyms(ChoiceOf(g, c).defaults)
  }

  /** The symbols whose expressions reach s directly: its own and its choice's. */
  function DirectRefs(g: Graph, s: SymId): set<SymId> {
    SymRefs(g, s) + (if SymOf(g, s).choice.Some? then ChoiceRefs(g, SymOf(g, s).choice.value) else {})
  }

  /** A layering of the graph: everything a symbol refers to lies in a lower
      layer, and the members of a choice share the layer of the choice. */
  datatype Order = Order(sym: seq<nat>, choice: seq<nat>, top: nat)

  ghost predicate Layered(g: Graph, o: Order) {
    && WellFormed(g)
    && |o.sym| == |g.syms| && |o.choice| == |g.choices|
    && (forall s :: 0 <= s < |g.syms| ==> o.sym[s] <= o.top && Below(o, SymRefs(g, s), o.sym[s]))
    && (forall c :: 0 <= c < |g.choices| ==> Below(o, ChoiceRefs(g, c), o.choice[c]))
    && (forall s :: 0 <= s < |g.syms| && g.syms[s].choice.Some? ==> InLayerOfChoice(o, s, g.syms[s].choice.value))
  }

  ghost predicate Below(o: Order, refs: set<SymId>, layer: nat) {
    forall t :: t in refs ==> t < |o.sym| && o.sym[t] < layer
  }

  ghost predicate InLayerOfChoice(o: Order, s: SymId, c: ChoiceId) {
    s < |o.sym| && c < |o.choice| && o.sym[s] == o.choice[c]
  }

  // ---------- A value depends only on what it refers to ----------

  ghost predicate Agree(v: seq<string>, w: seq<string>, refs: set<SymId>) {
    |v| == |w| && forall t :: t in refs && t < |v| ==> v[t] == w[t]
  }

  lemma CondDepends(g: Graph, v: seq<string>, w: seq<string>, e: Option<Expr>)
    requires Agree(v, w, OptSyms(e))
    ensures Cond(g, v, e) == Cond(g, w, e)
  {
    if e.Some? { EvalDependsOnSyms(TriSyms(g), v, w, e.value); }
  }

  lemma {:induction false} PromptVisDepends(g: Graph, v: seq<string>, w: seq<string>, ps: seq<Option<Expr>>)
    requires Agree(v, w, PromptSyms(ps))
    ensures PromptVis(g, v, ps) == PromptVis(g, w, ps)
  {
    if ps != [] {
      var init := ps[..|ps| - 1];
      assert PromptSyms(init) <= PromptSyms(ps);
      PromptVisDepends(g, v, w, init);
      assert OptSyms(ps[|ps| - 1]) <= PromptSyms(ps);
      CondDepends(g, v, w, ps[|ps| - 1]);
    }
  }

  lemma SymVisDepends(g: Graph, v: seq<string>, w: seq<string>, s: SymId)
    requires Agree(v, w, DirectRefs(g, s))
    ensures SymVis(g, v, s) == SymVis(g, w, s)
  {
    PromptVisDepends(g, v, w, SymOf(g, s).prompts);
    if SymOf(g, s).choice.Some? {
      PromptVisDepends(g, v, w, ChoiceOf(g, SymOf(g, s).choice.value).prompts);
    }
  }

  lemma {:induction false} FirstDefaultDepends(g: Graph, v: seq<string>, w: seq<string>, ds: seq<Default>)
    requires Agree(v, w, DefaultSyms(ds))
    ensures FirstDefault(g, v, ds) == FirstDefault(g, w, ds)
    ensures FirstDefault(g, v, ds).Some? ==>
              Agree(v, w, Syms(FirstDefault(g, v, ds).value.value) + OptSyms(FirstDefault(g, v, ds).value.cond))
  {
    if ds != [] {
      assert Syms(ds[0].value) + OptSyms(ds[0].cond) <= DefaultSyms(ds);
      assert DefaultSyms(ds[1..]) <= DefaultSyms(ds);
      CondDepends(g, v, w, ds[0].cond);
      FirstDefaultDepends(g, v, w, ds[1..]);
    }
  }

  lemma {:induction false} FirstRangeDepends(g: Graph, v: seq<string>, w: seq<string>, rs: seq<Range>)
    requires Agree(v, w, RangeSyms(rs))
    ensures FirstRange(g, v, rs) == FirstRange(g, w, rs)
    ensures FirstRange(g, v, rs).Some? ==>
              Agree(v, w, AtomSyms(FirstRange(g, v, rs).value.low) + AtomSyms(FirstRange(g, v, rs).value.high))
  {
    if rs != [] {
      assert AtomSyms(rs[0].low) + AtomSyms(rs[0].high) + OptSyms(rs[0].cond) <= RangeSyms(rs);
      assert RangeSyms(rs[1..]) <= RangeSyms(rs);
      CondDepends(g, v, w, rs[0].cond);
      FirstRangeDepends(g, v, w, rs[1..]);
    }
  }

  lemma {:induction false} FirstChoiceDefaultDepends(g: Graph, v: seq<string>, w: seq<string>, ds: seq<ChoiceDefault>)
    requires Agree(v, w, ChoiceDefaultSyms(ds))
    ensures FirstChoiceDefault(g, v, ds) == FirstChoiceDefault(g, w, ds)
  {
    if ds != [] {
      assert OptSyms(ds[0].cond) <= ChoiceDefaultSyms(ds);
      assert ChoiceDefaultSyms(ds[1..]) <= ChoiceDefaultSyms(ds);
      CondDepends(g, v, w, ds[0].cond);
      FirstChoiceDefaultDepends(g, v, w, ds[1..]);
    }
  }

  lemma {:induction false} FirstVisibleDepends(g: Graph, u: Users, u': Users, v: seq<string>, w: seq<string>,
                                               ms: seq<SymId>)
    requires forall m :: m in ms ==> MemberVis(g, u, v, m) == MemberVis(g, u', w, m)
    ensures FirstVisible(g, u, v, ms) == FirstVisible(g, u', w, ms)
  {
    if ms != [] { FirstVisibleDepends(g, u, u', v, w, ms[1..]); }
  }

  lemma {:induction false} FirstChoiceDefaultIn(g: Graph, v: seq<string>, ds: seq<ChoiceDefault>, members: seq<SymId>)
    requires forall i :: 0 <= i < |ds| ==> ds[i].sym in members
    ensures FirstChoiceDefault(g, v, ds).Some? ==> FirstChoiceDefault(g, v, ds).value in members
  {
    if ds != [] { FirstChoiceDefaultIn(g, v, ds[1..], members); }
  }

  /** The state of a choice is settled by its own conditions, its members'
      conditions and what the user picked in it. */
  lemma ChoiceDepends(g: Graph, u: Users, u': Users, v: seq<string>, w: seq<string>, c: ChoiceId)
    requires WellFormed(g) && UsersFit(g, u) && c < |g.choices|
    requires Agree(v, w, ChoiceRefs(g, c))
    requires forall m :: m in g.choices[c].members ==> Agree(v, w, DirectRefs(g, m))
    requires UserSel(u, c) == UserSel(u', c) && UserMode(u, c) == UserMode(u', c)
    requires forall m :: m in g.choices[c].members ==> UserSeen(u, m) == UserSeen(u', m)
    ensures ChoiceVis(g, v, c) == ChoiceVis(g, w, c)
    ensures Mode(g, u, v, c) == Mode(g, u', w, c)
    ensures Selection(g, u, v, c) == Selection(g, u', w, c)
  {
    var d := g.choices[c];
    PromptVisDepends(g, v, w, d.prompts);
    FirstChoiceDefaultDepends(g, v, w, d.defaults);
    forall m | m in d.members ensures MemberVis(g, u, v, m) == MemberVis(g, u', w, m) { SymVisDepends(g, v, w, m); }
    FirstVisibleDepends(g, u, u', v, w, d.members);
    assert WellFormedChoice(g, c);
    FirstChoiceDefaultIn(g, v, d.defaults, d.members);
  }

  lemma AgreeOnParts(g: Graph, v: seq<string>, w: seq<string>, s: SymId)
    requires Agree(v, w, DirectRefs(g, s))
    ensures Agree(v, w, DefaultSyms(SymOf(g, s).defaults)) && Agree(v, w, RangeSyms(SymOf(g, s).ranges))
    ensures Agree(v, w, OptSyms(Some(SymOf(g, s).revDep)))
    ensures SymOf(g, s).choice.Some? ==> Agree(v, w, ChoiceRefs(g, SymOf(g, s).choice.value))
  {
    hide DefaultSyms, RangeSyms, PromptSyms, ChoiceRefs, Syms;
  }

  lemma {:induction false} NumberDefaultDepends(g: Graph, v: seq<string>, w: seq<string>, ds: seq<Default>, base: nat,
                                                text: string)
    requires Agree(v, w, DefaultSyms(ds))
    ensures NumberDefault(g, v, ds, base, text) == NumberDefault(g, w, ds, base, text)
  {
    if ds != [] {
      assert Syms(ds[0].value) + OptSyms(ds[0].cond) <= DefaultSyms(ds);
      assert DefaultSyms(ds[1..]) <= DefaultSyms(ds);
      CondDepends(g, v, w, ds[0].cond);
      NumberDefaultDepends(g, v, w, ds[1..], base, text);
      NumberDefaultDepends(g, v, w, ds[1..], base, LeafStr(g, v, ds[0].value));
    }
  }

  lemma NumberValueDepends(g: Graph, u: Users, u': Users, v: seq<string>, w: seq<string>, s: SymId)
    requires Agree(v, w, DirectRefs(g, s)) && UserVal(u, s) == UserVal(u', s)
    ensures NumberValue(g, u, v, s) == NumberValue(g, u', w, s)
  {
    hide DirectRefs, DefaultSyms, RangeSyms, NumberDefault, FirstRange, SymVis, Shown, NumberBase;
    AgreeOnParts(g, v, w, s);
    SymVisDepends(g, v, w, s);
    NumberDefaultDepends(g, v, w, SymOf(g, s).defaults, NumberBase(SymOf(g, s).typ), "");
    FirstRangeDepends(g, v, w, SymOf(g, s).ranges);
  }

  lemma StringValueDepends(g: Graph, u: Users, u': Users, v: seq<string>, w: seq<string>, s: SymId)
    requires Agree(v, w, DirectRefs(g, s)) && UserVal(u, s) == UserVal(u', s)
    ensures StringValue(g, u, v, s) == StringValue(g, u', w, s)
  {
    hide DirectRefs, DefaultSyms, FirstDefault, SymVis;
    AgreeOnParts(g, v, w, s);
    SymVisDepends(g, v, w, s);
    FirstDefaultDepends(g, v, w, SymOf(g, s).defaults);
  }

  lemma TriValueDepends(g: Graph, u: Users, u': Users, v: seq<string>, w: seq<string>, s: SymId)
    requires Agree(v, w, DirectRefs(g, s)) && UserVal(u, s) == UserVal(u', s)
    ensures TriValue(g, u, v, s) == TriValue(g, u', w, s)
  {
    hide DirectRefs, DefaultSyms, FirstDefault, SymVis, Cond;
    AgreeOnParts(g, v, w, s);
    SymVisDepends(g, v, w, s);
    var ds := SymOf(g, s).defaults;
    FirstDefaultDepends(g, v, w, ds);
    CondDepends(g, v, w, Some(SymOf(g, s).revDep));
    var def := FirstDefault(g, v, ds);
    if def.Some? {
      CondDepends(g, v, w, def.value.cond);
      CondDepends(g, v, w, Some(def.value.value));
    }
  }

  /** The symbols a value is computed from; a choice member also depends on
      what decides the visibility of its siblings. */
  ghost function Inputs(g: Graph, s: SymId): set<SymId> {
    DirectRefs(g, s) +
    (if SymOf(g, s).choice.Some? then
       set m, t | m in ChoiceOf(g, SymOf(g, s).choice.value).members && t in DirectRefs(g, m) :: t
     else {})
  }

  ghost predicate SameUser(g: Graph, u: Users, u': Users, s: SymId) {
    && UserVal(u, s) == UserVal(u', s)
    && (SymOf(g, s).choice.Some? ==>
          var c := SymOf(g, s).choice.value;
          && UserSel(u, c) == UserSel(u', c) && UserMode(u, c) == UserMode(u', c)
          && forall m :: m in ChoiceOf(g, c).members ==> UserSeen(u, m) == UserSeen(u', m))
  }

  lemma MemberValueDepends(g: Graph, u: Users, u': Users, v: seq<string>, w: seq<string>, s: SymId, c: ChoiceId)
    requires WellFormed(g) && UsersFit(g, u) && s < |g.syms| && g.syms[s].choice == Some(c)
    requires Agree(v, w, Inputs(g, s)) && SameUser(g, u, u', s)
    ensures MemberValue(g, u, v, s, c) == MemberValue(g, u', w, s, c)
  {
    hide DirectRefs, Selection, Mode, SymVis, ChoiceVis;
    assert WellFormedSym(g, s);
    SymVisDepends(g, v, w, s);
    forall m | m in g.choices[c].members ensures Agree(v, w, DirectRefs(g, m)) {
      assert DirectRefs(g, m) <= Inputs(g, s);
    }
    AgreeOnParts(g, v, w, s);
    ChoiceDepends(g, u, u', v, w, c);
  }

  lemma CalcDepends(g: Graph, u: Users, u': Users, v: seq<string>, w: seq<string>, s: SymId)
    requires WellFormed(g) && UsersFit(g, u) && s < |g.syms|
    requires Agree(v, w, Inputs(g, s)) && SameUser(g, u, u', s)
    ensures Calc(g, u, v, s) == Calc(g, u', w, s)
  {
    hide DirectRefs, MemberValue, TriValue, NumberValue, StringValue;
    if g.syms[s].choice.Some? { MemberValueDepends(g, u, u', v, w, s, g.syms[s].choice.value); }
    TriValueDepends(g, u, u', v, w, s);
    NumberValueDepends(g, u, u', v, w, s);
    StringValueDepends(g, u, u', v, w, s);
  }
}
