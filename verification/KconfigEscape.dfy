/** String values in a .config file: quoted, with backslashes and quotes escaped. */
module KconfigEscape {

  datatype Loaded = Value(text: string) | MalformedStringLiteral

  /** Every occurrence of pat, left to right and without overlap, becomes rep. */
  function ReplaceAll(s: string, pat: string, rep: string): string
    requires pat != []
  {
    if |s| < |pat| then s
    else if s[..|pat|] == pat then rep + ReplaceAll(s[|pat|..], pat, rep)
    else [s[0]] + ReplaceAll(s[1..], pat, rep)
  }

  function Escape(s: string): string {
    ReplaceAll(ReplaceAll(s, "\\", "\\\\"), "\"", "\\\"")
  }

  function Unescape(s: string): string {
    ReplaceAll(ReplaceAll(s, "\\\"", "\""), "\\\\", "\\")
  }

  /** The text after the equals sign, as it is written. */
  function Written(s: string): string { "\"" + Escape(s) + "\"" }

  /** The text after the equals sign, as it is read. */
  function Load(text: string): Loaded {
    if text == [] || text[0] != '"' then Value(text)
    else if |text| < 2 || text[|text| - 1] != '"' then MalformedStringLiteral
    else Value(Unescape(text[1..|text| - 1]))
  }

  lemma {:induction false} DoubledBackslashes(s: string)
    ensures ReplaceAll(ReplaceAll(s, "\\", "\\\\"), "\\\\", "\\") == s
  {
    if s != [] {
      DoubledBackslashes(s[1..]);
      var rest := ReplaceAll(s[1..], "\\", "\\\\");
      if s[0] == '\\' {
        assert s[..1] == "\\";
        assert ("\\\\" + rest)[..2] == "\\\\" && ("\\\\" + rest)[2..] == rest;
      } else {
        assert s[..1] != "\\" by { assert s[..1][0] == s[0]; }
        assert |rest| > 0 ==> ([s[0]] + rest)[..2][0] != '\\';
        assert ([s[0]] + rest)[1..] == rest;
        if rest == [] { NothingLeft(s[1..], "\\", "\\\\"); }
      }
    }
  }

  lemma {:induction false} NothingLeft(s: string, pat: string, rep: string)
    requires pat != [] && rep != []
    ensures ReplaceAll(s, pat, rep) == [] <==> s == []
  {
  }

  /** Escaping quotes never puts a quote first. */
  lemma QuotedStart(s: string)
    ensures ReplaceAll(s, "\"", "\\\"") != [] ==> ReplaceAll(s, "\"", "\\\"")[0] != '"'
  {
    if s != [] { assert s[..1] == [s[0]]; }
  }

  lemma {:induction false} EscapedQuotes(s: string)
    ensures ReplaceAll(ReplaceAll(s, "\"", "\\\""), "\\\"", "\"") == s
  {
    if s != [] {
      EscapedQuotes(s[1..]);
      QuotedStart(s[1..]);
      var rest := ReplaceAll(s[1..], "\"", "\\\"");
      assert s[..1] == [s[0]];
      if s[0] == '"' {
        assert ("\\\"" + rest)[..2] == "\\\"" && ("\\\"" + rest)[2..] == rest;
      } else {
        var t := [s[0]] + rest;
        assert s[..1][0] != "\""[0];
        assert t[1..] == rest;
        assert |t| >= 2 ==> t[..2][1] == rest[0];
        if rest == [] { NothingLeft(s[1..], "\"", "\\\""); }
      }
    }
  }

  /** The two replacements that unescape undo the two that escape. */
  lemma UnescapeEscape(s: string)
    ensures Unescape(Escape(s)) == s
  {
    EscapedQuotes(ReplaceAll(s, "\\", "\\\\"));
    DoubledBackslashes(s);
  }

  /** A string value survives being written to a .config file and read back. */
  lemma WrittenThenLoaded(s: string)
    ensures Load(Written(s)) == Value(s)
  {
    UnescapeEscape(s);
    assert Written(s)[1..|Written(s)| - 1] == Escape(s);
  }

  /** Different strings are written differently. */
  lemma WrittenIsInjective(s: string, t: string)
    requires Written(s) == Written(t)
    ensures s == t
  {
    WrittenThenLoaded(s);
    WrittenThenLoaded(t);
  }

  /** Each backslash and each quote gets a backslash before it, every other character stays. */
  function Escaped(s: string): string {
    if s == "" then "" else (if s[0] in {'"', '\\'} then ['\\', s[0]] else [s[0]]) + Escaped(s[1..])
  }

  lemma {:induction false} ReplaceJoins(s: string, t: string, c: char, rep: string)
    ensures ReplaceAll(s + t, [c], rep) == ReplaceAll(s, [c], rep) + ReplaceAll(t, [c], rep)
    decreases |s|
  {
    if s == "" {
      assert s + t == t;
    } else {
      assert (s + t)[1..] == s[1..] + t && (s + t)[..1] == s[..1];
      ReplaceJoins(s[1..], t, c, rep);
      var r, q := ReplaceAll(s[1..], [c], rep), ReplaceAll(t, [c], rep);
      assert rep + (r + q) == (rep + r) + q && [s[0]] + (r + q) == ([s[0]] + r) + q;
    }
  }

  lemma ReplaceChar(a: char, c: char, rep: string)
    ensures ReplaceAll([a], [c], rep) == if a == c then rep else [a]
  {
    assert [a][..1] == [a] && [a][1..] == "";
    assert rep + "" == rep;
  }

  /** The two replacements together escape character by character. */
  lemma {:induction false} EscapeMeans(s: string)
    ensures Escape(s) == Escaped(s)
  {
    hide ReplaceAll;
    if s == "" {
      NothingLeft("", "\\", "\\\\");
      NothingLeft("", "\"", "\\\"");
    } else {
      var a, rest := s[0], s[1..];
      assert s == [a] + rest;
      ReplaceJoins([a], rest, '\\', "\\\\");
      ReplaceChar(a, '\\', "\\\\");
      var head, tail := ReplaceAll([a], "\\", "\\\\"), ReplaceAll(rest, "\\", "\\\\");
      ReplaceJoins(head, tail, '"', "\\\"");
      ReplaceChar(a, '"', "\\\"");
      ReplaceChar('\\', '"', "\\\"");
      if a == '\\' {
        assert head == ['\\'] + ['\\'];
        ReplaceJoins(['\\'], ['\\'], '"', "\\\"");
      }
      EscapeMeans(rest);
    }
  }

  /** Only a text that starts with a quote is a string, and then it must end with another. */
  lemma LoadMeans(text: string)
    ensures Load(text) == MalformedStringLiteral <==>
              text != "" && text[0] == '"' && (|text| == 1 || text[|text| - 1] != '"')
    ensures text == "" || text[0] != '"' ==> Load(text) == Value(text)
  {
  }
}
