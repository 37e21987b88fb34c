/** parseSchema as a run: tokens drawn from a text until its end, each offered to the machine
    until it is used up. */
module SchemaParser {
  import opened Base
  import opened Schema
  import opened Parser
  import opened ParserInvariant
  import L = Lexer
  import Scanner
  import opened StreamObjects

  /** BLINK_TOKEN_MAX_SIZE. */
  const TOKEN_MAX_SIZE: nat := 100

  /** The inner loop: the same token until a step uses it up. */
  function Consume(p: Parser, tok: L.Token): (r: Option<Parser>)
    requires Inv(p)
    ensures r.Some? ==> Inv(r.value) && (tok.Eof? ==> r.value.state == PAny)
    decreases Rank(p.state)
  {
    StepKept(p, tok);
    match Step(p, tok)
    case Fail => None
    case Go(q, shift) => if shift then Some(q) else Consume(q, tok)
  }

  /** The outer loop. Every token but the end of file consumes text, so a run on a finite text
      ends: the measure is the unread text, and within one token the rank of the state. */
  function ParseFrom(text: seq<byte>, pos: nat, p: Parser): (r: Option<Parser>)
    requires pos <= |text| && Inv(p)
    ensures r.Some? ==> Inv(r.value) && r.value.state == PAny
    decreases |text| - pos
  {
    var (tok, next) := L.GetToken(text, pos, TOKEN_MAX_SIZE);
    L.TokenProgress(text, pos, TOKEN_MAX_SIZE);
    if tok.NoMemory? then None
    else match Consume(p, tok)
      case None => None
      case Some(q) => if tok.Eof? then Some(q) else ParseFrom(text, next, q)
  }

  function Parse(text: seq<byte>): Option<Namespaces> {
    match ParseFrom(text, 0, INITIAL)
    case None => None
    case Some(p) => Some(p.nss)
  }

  /** Whatever the text: if it is accepted, every namespace, definition, field and symbol list
      can be searched by name, every field has a name, symbol values increase, and there is a
      namespace to look in. */
  lemma AcceptedIsOk(text: seq<byte>)
    ensures Parse(text).Some? ==> SchemaOk(Parse(text).value) && Parse(text).value != []
  {
    var r := ParseFrom(text, 0, INITIAL);
    if r.Some? { SoundIsOk(r.value.nss); }
  }

  /** A closing parenthesis is rejected wherever a sized type ends, so no accepted schema
      text has a sized type in the form `type ( size )`. */
  lemma NoClosingParenthesis(p: Parser, inField: bool, size: uint64)
    requires Inv(p) && p.state == PSize(inField)
    ensures var q := Consume(p, L.Uint(size));
            q.Some? ==> Consume(q.value, L.Keyword(L.KRParen)) == None
  {
    var n := Step(p, L.Uint(size));
    if n.Go? {
      StepKept(p, L.Uint(size));
      var q := n.p;
      assert q.state == AfterType(inField) by { SizeLands(p, inField, size); }
      StepKept(q, L.Keyword(L.KRParen));
      RParenRefused(q);
    }
  }

  lemma SizeLands(p: Parser, inField: bool, size: uint64)
    requires Inv(p) && p.state == PSize(inField)
    ensures Step(p, L.Uint(size)).Go? ==>
              Step(p, L.Uint(size)).p.state == AfterType(inField) && Step(p, L.Uint(size)).shift
  {
    hide TypeInv, PutType;
  }

  lemma RParenRefused(q: Parser)
    requires Inv(q) && (q.state == PFieldNameAnnotes || q.state == PAny)
    ensures Consume(q, L.Keyword(L.KRParen)) == None
  {
    hide Sound, Unnamed;
    var tok := L.Keyword(L.KRParen);
    hide Inv, Step;
    if q.state == PFieldNameAnnotes {
      StepKept(q, tok);
      NoNameThere(q);
    } else {
      NoDefThere(q);
    }
  }

  lemma NoNameThere(q: Parser)
    requires Inv(q) && q.state == PFieldNameAnnotes
    ensures var tok, q' := L.Keyword(L.KRParen), q.(state := PFieldName);
            Step(q, tok) == Go(q', false) && Inv(q') && Step(q', tok) == Fail
  {
    hide Sound, Unnamed;
  }

  lemma NoDefThere(q: Parser)
    requires Inv(q) && q.state == PAny
    ensures Step(q, L.Keyword(L.KRParen)) == Fail
  {
    hide Sound;
  }

  // ------------------------------------------------------------------ as it runs

  /** parseSchema: two nested loops over the machine's variables. */
  method ParseSchema(inp: Stream) returns (nss: Option<Namespaces>)
    requires inp.Valid() && !inp.bounded && inp.pos == 0
    modifies inp.Repr
    ensures nss == Parse(old(inp.Text()))
  {
    hide Consume, Step, Inv, ParseFrom, L.GetToken;
    var buffer := new byte[TOKEN_MAX_SIZE](_ => 0);
    ghost var text := inp.Text();
    var p := INITIAL;
    assert Inv(p) by { InitialInv(); }
    var ok, done := true, false;
    while ok && !done
      invariant Scanner.Usable(inp, buffer) && inp.Text() == text && buffer.Length == TOKEN_MAX_SIZE
      invariant ok ==> Inv(p)
      invariant ParseFrom(text, 0, INITIAL) ==
                        if !ok then None else if done then Some(p) else ParseFrom(text, inp.pos, p)
      decreases ok && !done, |text| - inp.pos
    {
      ghost var pos := inp.pos;
      ParseStep(text, pos, p);
      L.TokenProgress(text, pos, TOKEN_MAX_SIZE);
      var tok := Scanner.GetToken(inp, buffer);
      if tok.NoMemory? {
        ok := false;
      } else {
        ok, p := Offer(p, tok);
        done := tok.Eof?;
      }
    }
    nss := if ok then Some(p.nss) else None;
  }

  lemma InitialInv()
    ensures Inv(INITIAL)
  {
  }

  lemma ParseStep(text: seq<byte>, pos: nat, p: Parser)
    requires pos <= |text| && Inv(p)
    ensures var (tok, next) := L.GetToken(text, pos, TOKEN_MAX_SIZE);
            ParseFrom(text, pos, p) ==
              if tok.NoMemory? || Consume(p, tok).None? then None
              else if tok.Eof? then Consume(p, tok)
              else ParseFrom(text, next, Consume(p, tok).value)
  {
  }

  /** The inner loop. */
  method Offer(start: Parser, tok: L.Token) returns (ok: bool, p: Parser)
    requires Inv(start)
    ensures ok == Consume(start, tok).Some? && (ok ==> Consume(start, tok) == Some(p) && Inv(p))
  {
    hide Inv, Step, Kept;
    ok, p := true, start;
    var shift := false;
    while ok && !shift
      invariant ok ==> Inv(p)
      invariant Consume(start, tok) == if !ok then None else if shift then Some(p) else Consume(p, tok)
      decreases ok && !shift, if ok && !shift then Rank(p.state) else 0
    {
      StepLowers(p, tok);
      match Step(p, tok)
      case Fail => ok := false;
      case Go(q, s) =>
        p, shift := q, s;
    }
  }

  lemma StepLowers(p: Parser, tok: L.Token)
    requires Inv(p)
    ensures var n := Step(p, tok); n.Go? ==> Inv(n.p) && (!n.shift ==> Rank(n.p.state) < Rank(p.state))
  {
    hide Inv, Step;
    StepKept(p, tok);
  }
}
