/** The loader's methods: a cursor over the text and the loop with its explicit stack. */
module JsonLoader {
  import opened Options
  import opened JsonNumber
  import opened JsonLexer
  import opened Json

  class Loader {
    const text: string
    var pos: nat
    var cur: char
    var stack: seq<nat>
    var stackTop: Option<nat>
    var stackKey: Option<Prim>
    var store: seq<Node>

    ghost predicate Valid()
      reads this`pos
    {
      pos <= |text|
    }

    ghost function S(): Stream
      reads this`pos, this`cur
      requires Valid()
    {
      Stream(cur, text[pos..])
    }

    ghost function M(): Machine
      reads this
    {
      Machine(stack, stackTop, stackKey, store)
    }

    constructor (text: string)
      ensures Valid() && this.text == text && S() == Stream(NUL, text) && M() == EMPTY
    {
      this.text := text;
      pos, cur := 0, NUL;
      stack, stackTop, stackKey, store := [], None, None, [];
    }

    method NextChar() returns (c: char)
      requires Valid()
      modifies this`pos, this`cur
      ensures Valid() && S() == Next(old(S())) && c == cur
    {
      if pos < |text| {
        cur := text[pos];
        pos := pos + 1;
      } else {
        cur := NUL;
      }
      return cur;
    }

    /** The rest of null, false or true. */
    method ReadWord(w: string) returns (ok: bool)
      requires Valid()
      modifies this`pos, this`cur
      ensures Valid() && ok == Word(old(S()), w).Some?
      ensures ok ==> S() == Word(old(S()), w).value
    {
      ghost var s := S();
      var i := 0;
      while i < |w| && cur == w[i]
        invariant 0 <= i <= |w| && Valid()
        invariant Word(S(), w[i..]) == Word(s, w)
      {
        var c := NextChar();
        i := i + 1;
      }
      return i == |w|;
    }

    /** The characters of a number, and whether one of them is that of a float. */
    method ReadNumberText(first: char) returns (bytes: string, flt: bool)
      requires Valid() && !IsFloatChar(first)
      modifies this`pos, this`cur
      ensures Valid()
      ensures var (more, _, s') := NumberRest(old(S()), false); S() == s' && bytes == [first] + more
      ensures flt == HasFloatChar(bytes)
    {
      hide NumberRest, HasFloatChar, IsFloatChar;
      ghost var all := NumberRest(S(), false);
      bytes, flt := [first], false;
      assert bytes + all.0 == [first] + all.0;
      while IsNumberChar(cur)
        invariant Valid()
        invariant var (more, f, s') := NumberRest(S(), flt);
                  bytes + more == [first] + all.0 && f == all.1 && s' == all.2
        decreases Left(S())
      {
        NextShrinks(S());
        NumberRestNext(S(), flt);
        ghost var more := NumberRest(Next(S()), flt || IsFloatChar(cur)).0;
        assert (bytes + [cur]) + more == bytes + ([cur] + more);
        if IsFloatChar(cur) { flt := true; }
        bytes := bytes + [cur];
        var c := NextChar();
      }
      NumberRestNext(S(), flt);
      assert bytes + "" == bytes;
      NumberFlag(old(S()), false);
      FloatTail(bytes);
      assert bytes[1..] == all.0;
    }

    /** A number goes to one of the two conversions; None is its ValueError. */
    method ReadNumber(first: char) returns (p: Option<Prim>)
      requires Valid() && !IsFloatChar(first)
      modifies this`pos, this`cur
      ensures Valid()
      ensures var (more, _, s') := NumberRest(old(S()), false);
              S() == s' && NumberToken([first] + more) == if p.Some? then Primitive(p.value) else Bad
    {
      hide NumberRest, IsInteger, IsDecimal, IntegerValue, HasFloatChar;
      var bytes, flt := ReadNumberText(first);
      if flt {
        var ok := ParseDecimal(bytes);
        return if ok then Some(PFloat(bytes)) else None;
      }
      var n := ParseInteger(bytes);
      return if n.Some? then Some(PInt(n.value)) else None;
    }

    /** Four characters taken as hexadecimal digits. */
    method ReadHex() returns (num: nat)
      requires Valid()
      modifies this`pos, this`cur
      ensures Valid() && (num, S()) == Hex(old(S()), 4, 0)
    {
      hide HexNibble, BitOr;
      ghost var all := Hex(S(), 4, 0);
      num := 0;
      for i := 0 to 4
        invariant Valid() && Hex(S(), 4 - i, num) == all
      {
        var c := NextChar();
        num := BitOr(num * 16, HexNibble(c));
      }
    }

    /** One character or escape of a string. */
    method ReadPart() returns (bytes: string)
      requires Valid() && cur != NUL
      modifies this`pos, this`cur
      ensures Valid() && (bytes, S()) == StringStep(old(S()))
    {
      hide Hex, Utf8, Escaped;
      var c := cur;
      if c == '\\' {
        c := NextChar();
        if c == 'u' {
          var num := ReadHex();
          bytes := Utf8(num);
        } else {
          bytes := [Escaped(c)];
        }
      } else {
        bytes := [c];
      }
      c := NextChar();
    }

    method ReadString() returns (ok: bool, bytes: string)
      requires Valid()
      modifies this`pos, this`cur
      ensures Valid() && ok == StringRest(old(S()), "").Some?
      ensures ok ==> (bytes, S()) == StringRest(old(S()), "").value
    {
      hide StringStep;
      ghost var all := StringRest(S(), "");
      bytes := "";
      while cur != NUL && cur != '"'
        invariant Valid() && StringRest(S(), bytes) == all
        decreases Left(S())
      {
        var part := ReadPart();
        bytes := bytes + part;
      }
      if cur == NUL { return false, bytes; }
      var c := NextChar();
      ok := true;
    }

    /** One token: white space, a primitive, a bracket, or nothing acceptable. */
    method ReadToken() returns (token: Token)
      requires Valid() && cur != NUL
      modifies this`pos, this`cur
      ensures Valid() && token == Lex(old(S())).0
      ensures token != Bad ==> S() == Lex(old(S())).1
    {
      hide Word, NumberRest, StringRest;
      var c := cur;
      var next := NextChar();
      var ok;
      match c
      case 'n' =>
        ok := ReadWord("ull");
        return if ok then Primitive(PNull) else Bad;
      case 'f' =>
        ok := ReadWord("alse");
        return if ok then Primitive(PBool(false)) else Bad;
      case 't' =>
        ok := ReadWord("rue");
        return if ok then Primitive(PBool(true)) else Bad;
      case '"' =>
        var bytes;
        ok, bytes := ReadString();
        return if ok then Primitive(PString(bytes)) else Bad;
      case '[' => return OpenList;
      case '{' => return OpenDict;
      case _ =>
        if IsSkip(c) { return Skip; }
        if c == '-' || IsDigit(c) {
          var p := ReadNumber(c);
          return if p.Some? then Primitive(p.value) else Bad;
        }
        return if c == '}' || c == ']' then Close else Bad;
    }

    /** Puts a primitive or a new container into the container being filled. */
    method Insert(id: nat, v: Value)
      modifies this`stackKey, this`store
      ensures M() == Deliver(old(M()), id, v)
    {
      if id < |store| {
        match store[id]
        case ListNode(items) => store := store[id := ListNode(items + [v])];
        case DictNode(entries) =>
          if stackKey.None? {
            if v.P? { stackKey := Some(v.p); }
          } else {
            store := store[id := DictNode(entries[stackKey.value := v])];
            stackKey := None;
          }
      }
    }

    /** Enters a new container; not ok is a container where a key should be. */
    method OpenContainer(node: Node) returns (ok: bool)
      modifies this`stack, this`stackTop, this`stackKey, this`store
      ensures match HandleOpen(old(M()), node)
              case Going(m) => ok && M() == m
              case Finished(_, _) => false
              case Failed => !ok
    {
      var next := |store|;
      if stackTop.None? {
        store := store + [node];
        stackTop := Some(next);
        return true;
      }
      var id := stackTop.value;
      if id < |store| && store[id].DictNode? && stackKey.None? { return false; }
      store := store + [node];
      Insert(id, Ref(next));
      stack := stack + [id];
      stackTop := Some(next);
      return true;
    }

    /** Leaves the container being filled for the one around it. */
    method CloseContainer()
      requires stack != []
      modifies this`stack, this`stackTop
      ensures M() == Leave(old(M()))
    {
      var n := |stack| - 1;
      stackTop := Some(stack[n]);
      stack := stack[..n];
    }

    method FinishLoad(v: Option<Value>) returns (r: Result)
      requires Valid()
      modifies this`pos, this`cur
      ensures Valid() && r == Finish(old(S()), M(), v)
    {
      ghost var s := S();
      while IsSpace(cur)
        invariant Valid() && EatSpace(S()) == EatSpace(s)
        decreases Left(S())
      {
        NextShrinks(S());
        var c := NextChar();
      }
      if cur != NUL { return SyntaxError; }
      if v.None? || stack != [] { return SyntaxError; }
      return Ok(v.value, store);
    }

    method LoadAll() returns (r: Result)
      requires Valid() && S() == Stream(NUL, text) && M() == EMPTY
      modifies this
      ensures r == Load(text)
    {
      hide Lex, Finish, Loop, Leave, HandleOpen, Deliver;
      var c := NextChar();
      while cur != NUL
        invariant Valid() && Loop(S(), M()) == Load(text)
        decreases Left(S())
      {
        ghost var s, m := S(), M();
        LexShrinks(s);
        LoopStep(s, m);
        var token := ReadToken();
        match token
        case Skip =>
        case Bad => return SyntaxError;
        case Primitive(p) =>
          if stackTop.None? {
            r := FinishLoad(Some(P(p)));
            return;
          }
          Insert(stackTop.value, P(p));
        case OpenList =>
          var ok := OpenContainer(ListNode([]));
          if !ok { return SyntaxError; }
        case OpenDict =>
          var ok := OpenContainer(DictNode(map[]));
          if !ok { return SyntaxError; }
        case Close =>
          if stackTop.None? { return SyntaxError; }
          if stack == [] {
            r := FinishLoad(Some(Ref(stackTop.value)));
            return;
          }
          CloseContainer();
      }
      LoopAtEnd(S(), M());
      r := FinishLoad(if stackTop.Some? then Some(Ref(stackTop.value)) else None);
    }
  }

  lemma LoopAtEnd(s: Stream, m: Machine)
    requires s.cur == NUL
    ensures Loop(s, m) == Finish(s, m, TopValue(m))
  {
  }

  /** A valid document: the loader returns a value that stands for the grammar's. */
  method LoadDocument(before: string, ghost d: Doc, body: string, after: string) returns (r: Result)
    requires IsWhite(before) && ValidDoc(d) && IsWhite(after) && body == Render(d)
    ensures Loads(r, ValueOf(d))
  {
    hide Load, Render;
    var loader := new Loader(before + (body + after));
    LoaderAgreesWithGrammar(before, d, after);
    r := loader.LoadAll();
  }
}
