/**
 lexer.c together with the token reader of step.c: the characters of a step file
 become tokens once, and the parser then moves a cursor over them. Line numbers,
 which only occur in messages, are not modelled.
 */
module Lexing {
  import opened Wrappers

  datatype Token = Comma | Newline | Value(str: string) | Eof

  predicate Separator(c: char) {
    c == ',' || c == '\n' || c == '\0'
  }

  /** Index of the first comma, newline or NUL, or the length of s. */
  function ValueLength(s: string): (n: nat)
    ensures n <= |s| && (forall i :: 0 <= i < n ==> !Separator(s[i])) && (n < |s| ==> Separator(s[n]))
  {
    if s == "" || Separator(s[0]) then 0 else 1 + ValueLength(s[1..])
  }

  /** A NUL character ends the file. */
  predicate AtEnd(s: string) {
    s == "" || s[0] == '\0'
  }

  /** One token and the text after it; a value must be followed by a comma or a newline. */
  function ReadToken(s: string): Option<(Token, string)> {
    if AtEnd(s) then Some((Eof, s))
    else if s[0] == ',' then Some((Comma, s[1..]))
    else if s[0] == '\n' then Some((Newline, s[1..]))
    else
      var n := ValueLength(s);
      if AtEnd(s[n..]) then None else Some((Value(s[..n]), s[n..]))
  }

  function Tokens(s: string): Option<seq<Token>>
    decreases |s|
  {
    match ReadToken(s)
    case None => None
    case Some((tk, rest)) =>
      if tk == Eof then Some([Eof])
      else
        assert |rest| < |s|;
        match Tokens(rest)
        case None => None
        case Some(ts) => Some([tk] + ts)
  }

  /** End-of-file stands at the end and nowhere else. */
  predicate Terminated(ts: seq<Token>) {
    ts != [] && ts[|ts| - 1] == Eof && forall i :: 0 <= i < |ts| - 1 ==> ts[i] != Eof
  }

  lemma {:induction false} TokensTerminated(s: string)
    ensures Tokens(s).Some? ==> Terminated(Tokens(s).value)
    decreases |s|
  {
    var r := ReadToken(s);
    if r.Some? && r.value.0 != Eof {
      TokensTerminated(r.value.1);
    }
  }

  class Input {
    const buf: string
    var off: nat
    var eof: nat

    constructor (buf: string)
      ensures this.buf == buf && off == 0 && eof == 0
    {
      this.buf := buf;
      off, eof := 0, 0;
    }

    /** The text not read yet. */
    function Rest(): string
      requires off <= |buf|
      reads this
    {
      buf[off..]
    }

    /** The next character; NUL at the end, and an error when the end was reported before. */
    method Getc() returns (error: bool, ch: char)
      requires off <= |buf|
      modifies this
      ensures off <= |buf|
      ensures old(Rest()) == "" ==> ch == '\0' && error == (old(eof) > 0) && off == old(off) && eof == old(eof) + 1
      ensures old(Rest()) != "" ==>
                !error && eof == old(eof) && ch == old(Rest())[0] && off == old(off) + 1 && Rest() == old(Rest())[1..]
    {
      if off == |buf| {
        error, ch := eof > 0, '\0';
        eof := eof + 1;
        return;
      }
      ch := buf[off];
      off := off + 1;
      error := false;
    }

    /** Steps back over the character read last, unless the end was reported. */
    method Ungetc()
      requires off <= |buf|
      modifies this`off
      ensures off == if eof > 0 || old(off) == 0 then old(off) else old(off) - 1
    {
      if eof > 0 {
        return;
      }
      if off > 0 {
        off := off - 1;
      }
    }

    /** Reads one token. Not called again after the end of the file or an error. */
    method Read() returns (tk: Option<Token>)
      requires off <= |buf| && eof == 0
      modifies this
      ensures off <= |buf|
      ensures ReadToken(old(Rest())).None? ==> tk == None
      ensures ReadToken(old(Rest())).Some? ==> tk == Some(ReadToken(old(Rest())).value.0)
      ensures tk.Some? && tk.value != Eof ==> eof == 0 && Rest() == ReadToken(old(Rest())).value.1
    {
      ghost var s := Rest();
      ghost var start := off;
      var error, ch := Getc();
      if error {
        return None;
      }
      if ch == '\0' {
        return Some(Eof);
      }
      if ch == ',' {
        return Some(Comma);
      }
      if ch == '\n' {
        return Some(Newline);
      }
      var bf := "";
      while true
        invariant off <= |buf| && eof == 0 && off == start + |bf| + 1
        invariant |bf| < |s| && s == buf[start..] && bf == s[..|bf|] && ch == s[|bf|]
        invariant ValueLength(s) > |bf| && !Separator(ch)
        decreases |s| - |bf|
      {
        bf := bf + [ch];
        error, ch := Getc();
        if error {
          return None;
        }
        if ch == '\0' {
          assert AtEnd(s[ValueLength(s)..]);
          return None;
        }
        if ch == ',' || ch == '\n' {
          break;
        }
      }
      Ungetc();
      assert bf == s[..ValueLength(s)] && Rest() == s[ValueLength(s)..];
      return Some(Value(bf));
    }
  }

  class Lexer {
    const tokens: seq<Token>
    /** Index of the token read last, -1 before the first. */
    var tk: int

    ghost predicate Valid()
      reads this
    {
      Terminated(tokens) && -1 <= tk < |tokens|
    }

    constructor (tokens: seq<Token>)
      requires Terminated(tokens)
      ensures Valid() && this.tokens == tokens && tk == -1
    {
      this.tokens := tokens;
      tk := -1;
    }

    /** The tokens not read yet; the end of the file is never used up. */
    function Ahead(): (r: seq<Token>)
      requires Valid()
      reads this
      ensures Terminated(r)
    {
      if tk == |tokens| - 1 then tokens[tk..] else tokens[tk + 1..]
    }

    method Next() returns (t: Token)
      requires Valid()
      modifies this
      ensures Valid() && tk >= 0 && t == old(Ahead())[0] && t == tokens[tk]
      ensures t != Eof ==> Ahead() == old(Ahead())[1..] && tk == old(tk) + 1
      ensures t == Eof <==> tk == |tokens| - 1
    {
      if tk == -1 {
        tk := 0;
      } else if tokens[tk] != Eof {
        tk := tk + 1;
      }
      t := tokens[tk];
    }

    method Expect(exp: Token -> bool) returns (ok: bool, t: Token)
      requires Valid()
      modifies this
      ensures Valid() && t == old(Ahead())[0] && ok == exp(t)
      ensures t != Eof ==> Ahead() == old(Ahead())[1..] && tk < |tokens| - 1
    {
      t := Next();
      ok := exp(t);
    }

    /** Whether the end of the file comes next. Not asked once the end was read. */
    method PeekEof() returns (peek: bool)
      requires Valid() && tk < |tokens| - 1
      modifies this
      ensures Valid() && tk == old(tk) && peek == (Ahead()[0] == Eof)
    {
      var t := Next();
      peek := t == Eof;
      tk := tk - 1;
    }

    /** Reads the next token if it is the given one, which is not the end of the file. */
    method If(type_: Token) returns (ok: bool)
      requires Valid() && tk < |tokens| - 1 && type_ != Eof
      modifies this
      ensures Valid() && tk < |tokens| - 1 && ok == (old(Ahead())[0] == type_)
      ensures Ahead() == if ok then old(Ahead())[1..] else old(Ahead())
    {
      var t := Next();
      if t != type_ {
        tk := tk - 1;
        return false;
      }
      return true;
    }
  }

  /** All tokens of a text, or an error. */
  method Scan(text: string) returns (r: Option<seq<Token>>)
    ensures r == Tokens(text)
  {
    var lx := new Input(text);
    var ts: seq<Token> := [];
    assert lx.Rest() == text;
    if Tokens(text).Some? {
      assert ts + Tokens(text).value == Tokens(text).value;
    }
    while true
      invariant fresh(lx) && lx.off <= |lx.buf| && lx.eof == 0
      invariant Tokens(text) == match Tokens(lx.Rest()) case None => None case Some(more) => Some(ts + more)
      decreases |lx.Rest()|
    {
      ghost var s := lx.Rest();
      var tk := lx.Read();
      if tk.None? {
        return None;
      }
      ghost var before := ts;
      ts := ts + [tk.value];
      if tk.value == Eof {
        return Some(ts);
      }
      TokensStep(s);
      if Tokens(lx.Rest()).Some? {
        assert before + ([tk.value] + Tokens(lx.Rest()).value) == ts + Tokens(lx.Rest()).value;
      }
    }
  }

  lemma TokensStep(s: string)
    requires ReadToken(s).Some? && ReadToken(s).value.0 != Eof
    ensures |ReadToken(s).value.1| < |s|
    ensures Tokens(s) == match Tokens(ReadToken(s).value.1) case None => None case Some(ts) => Some([ReadToken(s).value.0] + ts)
  {}
}
