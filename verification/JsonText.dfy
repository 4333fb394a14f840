/**
  Whole texts: `builtin_parse` as a function, and the statement that it accepts
  exactly the texts of the grammar and yields what they denote.
 */
module JsonText {
  import opened Bytes
  import opened JsonValue
  import opened JsonGrammar
  import opened JsonParser
  import Utf8

  /** The document a text is read as, if the parser accepts it with `limit` levels of nesting. */
  function ReadDocument(fl: FloatLib, text: bytes, limit: nat): (r: Option<Document>)
    ensures r.Some? ==> TreeOk(r.value.v) && Finite(fl, r.value.v)
  {
    if !Utf8.Valid(text) then None
    else
      var v := ReadValue(fl, SkipWs(text), limit);
      if v.Fail? || SkipWs(v.rest) != [] then None
      else
        ReadValueSound(fl, SkipWs(text), limit);
        Some(Document(TakeWs(text), v.v, TakeWs(v.rest)))
  }

  function Parse(fl: FloatLib, text: bytes, limit: nat): Option<Value> {
    var r := ReadDocument(fl, text, limit);
    if r.None? then None else Some(Eval(fl, r.value.v))
  }

  /** `doc` derives `text` in the grammar, within the depth limit and with finite numbers. */
  ghost predicate Derives(fl: FloatLib, doc: Document, text: bytes, limit: nat) {
    DocumentOk(doc) && DocumentText(doc) == text && Nesting(doc.v) <= limit && Finite(fl, doc.v)
  }

  // Validating the whole text once is enough for every string inside it.

  lemma {:induction false} ItemsValid(state: Utf8.State, items: List<Item>, rest: bytes)
    requires ItemsOk(items)
    requires Utf8.Run(state, ItemsOnto(items, rest)) == Utf8.ACCEPT
    ensures Utf8.Run(state, ItemsText(items)) == Utf8.ACCEPT
    ensures Utf8.Valid(rest)
    decreases items
  {
    match items
    case Nil => Utf8.AsciiRun(state, QUOTE, rest);
    case Cons(it, tail) =>
      var more := ItemsOnto(tail, rest);
      if it.Raw? {
        assert ([it.b] + more)[1..] == more;
        ItemsValid(Utf8.Step(state, it.b), tail, rest);
        assert ItemsText(items)[1..] == ItemsText(tail);
      } else {
        assert ItemOnto(it, more) == [BACKSLASH] + ItemOnto(it, more)[1..];
        Utf8.AsciiRun(state, BACKSLASH, ItemOnto(it, more)[1..]);
        EscapeAscii(it, more);
        Utf8.AsciiPrefix(EscapeTail(it), more);
        ItemsValid(Utf8.ACCEPT, tail, rest);
        EscapeValid(it);
        Utf8.RunConcat(Utf8.ACCEPT, ItemText(it), ItemsText(tail));
      }
  }

  function EscapeTail(it: Item): bytes
    requires ItemOk(it) && !it.Raw?
  {
    match it
    case Escape(c) => [c]
    case Unicode(h) => [U] + h
    case Surrogates(hi, lo) => [U] + hi + [BACKSLASH, U] + lo
  }

  lemma EscapeAscii(it: Item, more: bytes)
    requires ItemOk(it) && !it.Raw?
    ensures ItemOnto(it, more)[1..] == EscapeTail(it) + more
    ensures forall i :: 0 <= i < |EscapeTail(it)| ==> EscapeTail(it)[i] < 0x80
  {
    match it
    case Escape(c) => assert c < 0x80;
    case Unicode(h) => assert ItemOnto(it, more)[1..] == [U] + h + more;
    case Surrogates(hi, lo) => assert ItemOnto(it, more)[1..] == [U] + hi + [BACKSLASH, U] + lo + more;
  }

  lemma EscapeValid(it: Item)
    requires ItemOk(it) && !it.Raw?
    ensures Utf8.Valid(ItemText(it))
  {
    match it
    case Escape(c) => Utf8.AsciiRun(Utf8.ACCEPT, ItemText(it)[0], []);
    case Unicode(h) => Utf8.CharAccepted(ItemText(it));
    case Surrogates(hi, lo) => Utf8.CharAccepted(ItemText(it));
  }

  lemma WsValid(ws: bytes, rest: bytes)
    requires Ws(ws)
    ensures Utf8.Valid(ws + rest) <==> Utf8.Valid(rest)
  {
    Utf8.AsciiPrefix(ws, rest);
  }

  lemma NumberValid(n: NumberToken, rest: bytes)
    requires NumberOk(n)
    ensures Utf8.Valid(NumberOnto(n, rest)) <==> Utf8.Valid(rest)
  {
    var s3 := ExponentOnto(n.exp, rest);
    assert Utf8.Valid(s3) <==> Utf8.Valid(rest) by {
      if n.exp.Exponent? {
        Utf8.AsciiPrefix([n.exp.e], n.exp.sign + (n.exp.digits + rest));
        Utf8.AsciiPrefix(n.exp.sign, n.exp.digits + rest);
        Utf8.AsciiPrefix(n.exp.digits, rest);
      }
    }
    var s2 := FractionOnto(n.frac, s3);
    assert Utf8.Valid(s2) <==> Utf8.Valid(s3) by {
      if n.frac != [] {
        Utf8.AsciiPrefix([DOT], n.frac + s3);
        Utf8.AsciiPrefix(n.frac, s3);
      }
    }
    Utf8.AsciiPrefix(n.whole, s2);
    Utf8.AsciiPrefix([MINUS], n.whole + s2);
  }

  lemma {:induction false} TreeValid(t: Tree, rest: bytes)
    requires TreeOk(t) && Utf8.Valid(TreeOnto(t, rest))
    ensures StringsValid(t) && Utf8.Valid(rest)
    decreases t, 0
  {
    match t
    case TNull => Utf8.AsciiPrefix(NULL_TEXT, rest);
    case TBool(b) =>
      Utf8.AsciiPrefix(TRUE_TEXT, rest);
      Utf8.AsciiPrefix(FALSE_TEXT, rest);
    case TNumber(n) => NumberValid(n, rest);
    case TString(items) =>
      Utf8.AsciiRun(Utf8.ACCEPT, QUOTE, ItemsOnto(items, rest));
      ItemsValid(Utf8.ACCEPT, items, rest);
    case TEmptyArray(ws) =>
      Utf8.AsciiRun(Utf8.ACCEPT, LBRACKET, ws + ([RBRACKET] + rest));
      WsValid(ws, [RBRACKET] + rest);
      Utf8.AsciiRun(Utf8.ACCEPT, RBRACKET, rest);
    case TArray(es) =>
      Utf8.AsciiRun(Utf8.ACCEPT, LBRACKET, ElemsOnto(es, rest));
      ElemsValid(es, rest);
    case TEmptyObject(ws) =>
      Utf8.AsciiRun(Utf8.ACCEPT, LBRACE, ws + ([RBRACE] + rest));
      WsValid(ws, [RBRACE] + rest);
      Utf8.AsciiRun(Utf8.ACCEPT, RBRACE, rest);
    case TObject(ms) =>
      Utf8.AsciiRun(Utf8.ACCEPT, LBRACE, MembersOnto(ms, rest));
      MembersValid(ms, rest);
  }

  lemma {:induction false} ElemsValid(es: Elems, rest: bytes)
    requires ElemsOk(es) && Utf8.Valid(ElemsOnto(es, rest))
    ensures ElemsStringsValid(es) && Utf8.Valid(rest)
    decreases es, 1
  {
    var after := AfterElem(es, rest);
    WsValid(es.pre, TreeOnto(es.v, es.post + after));
    TreeValid(es.v, es.post + after);
    WsValid(es.post, after);
    if es.MoreElems? {
      Utf8.AsciiRun(Utf8.ACCEPT, COMMA, ElemsOnto(es.next, rest));
      ElemsValid(es.next, rest);
    } else {
      Utf8.AsciiRun(Utf8.ACCEPT, RBRACKET, rest);
    }
  }

  lemma {:induction false} MembersValid(ms: Members, rest: bytes)
    requires MembersOk(ms) && Utf8.Valid(MembersOnto(ms, rest))
    ensures MembersStringsValid(ms) && Utf8.Valid(rest)
    decreases ms, 1
  {
    var after := AfterMember(ms, rest);
    var c := ms.gap + TreeOnto(ms.v, ms.post + after);
    var b := ms.mid + ([COLON] + c);
    WsValid(ms.pre, [QUOTE] + ItemsOnto(ms.key, b));
    Utf8.AsciiRun(Utf8.ACCEPT, QUOTE, ItemsOnto(ms.key, b));
    ItemsValid(Utf8.ACCEPT, ms.key, b);
    WsValid(ms.mid, [COLON] + c);
    Utf8.AsciiRun(Utf8.ACCEPT, COLON, c);
    WsValid(ms.gap, TreeOnto(ms.v, ms.post + after));
    TreeValid(ms.v, ms.post + after);
    WsValid(ms.post, after);
    if ms.MoreMembers? {
      Utf8.AsciiRun(Utf8.ACCEPT, COMMA, MembersOnto(ms.next, rest));
      MembersValid(ms.next, rest);
    } else {
      Utf8.AsciiRun(Utf8.ACCEPT, RBRACE, rest);
    }
  }

  /**
    The parser validates every unescaped string a second time. Once the whole text
    is valid UTF-8 that check cannot fail: no string of any derivation is ill-formed.
   */
  lemma SecondUtf8CheckNeverFails(doc: Document)
    requires DocumentOk(doc) && Utf8.Valid(DocumentText(doc))
    ensures StringsValid(doc.v)
  {
    WsValid(doc.pre, TreeOnto(doc.v, doc.post));
    TreeValid(doc.v, doc.post);
  }

  // The exact language.

  lemma ReadDocumentSound(fl: FloatLib, text: bytes, limit: nat)
    requires ReadDocument(fl, text, limit).Some?
    ensures Derives(fl, ReadDocument(fl, text, limit).value, text, limit)
  {
    SplitWs(text);
    var v := ReadValue(fl, SkipWs(text), limit);
    ReadValueSound(fl, SkipWs(text), limit);
    SplitWs(v.rest);
    assert TakeWs(v.rest) + [] == TakeWs(v.rest);
  }

  lemma ReadDocumentComplete(fl: FloatLib, doc: Document, text: bytes, limit: nat)
    requires Utf8.Valid(text) && Derives(fl, doc, text, limit)
    ensures ReadDocument(fl, text, limit) == Some(doc)
  {
    SecondUtf8CheckNeverFails(doc);
    TreeStart(doc.v, doc.post);
    SkipWsOf(doc.pre, TreeOnto(doc.v, doc.post));
    assert doc.post == [] || IsWs(doc.post[0]);
    ReadValueComplete(fl, doc.v, doc.post, limit);
    assert doc.post + [] == doc.post;
    SkipWsOf(doc.post, []);
  }

  /**
    A text is accepted exactly when it is valid UTF-8 and some derivation of it is
    within the limits, and then the result is what any such derivation denotes.
   */
  lemma ParserAcceptsExactlyTheGrammar(fl: FloatLib, text: bytes, limit: nat)
    ensures Parse(fl, text, limit).Some? <==> Utf8.Valid(text) && exists doc :: Derives(fl, doc, text, limit)
    ensures forall doc :: Utf8.Valid(text) && Derives(fl, doc, text, limit) ==>
              TreeOk(doc.v) && Parse(fl, text, limit) == Some(Eval(fl, doc.v))
  {
    if Parse(fl, text, limit).Some? {
      ReadDocumentSound(fl, text, limit);
    }
    forall doc | Utf8.Valid(text) && Derives(fl, doc, text, limit)
      ensures TreeOk(doc.v) && Parse(fl, text, limit) == Some(Eval(fl, doc.v))
    {
      ReadDocumentComplete(fl, doc, text, limit);
    }
  }

  /** Space, tab, line feed and carriage return before a text change nothing. */
  lemma PaddingIsIgnored(fl: FloatLib, pad: bytes, text: bytes, limit: nat)
    requires Parse(fl, text, limit).Some?
    requires forall i :: 0 <= i < |pad| ==> pad[i] in {0x20, 0x09, 0x0A, 0x0D}
    ensures Parse(fl, pad + text, limit) == Parse(fl, text, limit)
  {
    hide Utf8.Run, Finite, Nesting, TreeOnto;
    ReadDocumentSound(fl, text, limit);
    var doc := ReadDocument(fl, text, limit).value;
    var padded := Document(pad + doc.pre, doc.v, doc.post);
    assert Ws(pad);
    assert DocumentText(padded) == pad + text by {
      assert (pad + doc.pre) + TreeOnto(doc.v, doc.post) == pad + (doc.pre + TreeOnto(doc.v, doc.post));
    }
    WsValid(pad, text);
    ReadDocumentComplete(fl, padded, pad + text, limit);
  }

  /** The grammar is unambiguous: a text has one derivation, whatever the depth. */
  lemma DerivationUnique(doc: Document, other: Document)
    requires DocumentOk(doc) && DocumentOk(other)
    requires DocumentText(doc) == DocumentText(other) && Utf8.Valid(DocumentText(doc))
    ensures doc == other
  {
    var zero: Double := ZERO;
    var fl := FloatLib(_ => Some(zero), _ => NumberToken(false, [0x30], [], NoExponent));
    var limit := Max(Nesting(doc.v), Nesting(other.v));
    AlwaysFinite(fl, doc.v);
    AlwaysFinite(fl, other.v);
    ReadDocumentComplete(fl, doc, DocumentText(doc), limit);
    ReadDocumentComplete(fl, other, DocumentText(doc), limit);
  }

  lemma {:induction false} AlwaysFinite(fl: FloatLib, t: Tree)
    requires forall s :: fl.strtod(s).Some?
    ensures Finite(fl, t)
    decreases t
  {
    match t
    case TArray(es) => AlwaysElemsFinite(fl, es);
    case TObject(ms) => AlwaysMembersFinite(fl, ms);
    case _ =>
  }

  lemma {:induction false} AlwaysElemsFinite(fl: FloatLib, es: Elems)
    requires forall s :: fl.strtod(s).Some?
    ensures ElemsFinite(fl, es)
    decreases es
  {
    AlwaysFinite(fl, es.v);
    if es.MoreElems? {
      AlwaysElemsFinite(fl, es.next);
    }
  }

  lemma {:induction false} AlwaysMembersFinite(fl: FloatLib, ms: Members)
    requires forall s :: fl.strtod(s).Some?
    ensures MembersFinite(fl, ms)
    decreases ms
  {
    AlwaysFinite(fl, ms.v);
    if ms.MoreMembers? {
      AlwaysMembersFinite(fl, ms.next);
    }
  }

  /** A text nested beyond the limit is rejected. */
  lemma TooDeepIsRejected(fl: FloatLib, doc: Document, limit: nat)
    requires DocumentOk(doc) && Utf8.Valid(DocumentText(doc)) && Nesting(doc.v) > limit
    ensures Parse(fl, DocumentText(doc), limit) == None
  {
    var r := ReadDocument(fl, DocumentText(doc), limit);
    if r.Some? {
      ReadDocumentSound(fl, DocumentText(doc), limit);
      DerivationUnique(doc, r.value);
    }
  }

  // What the parser builds is a legal document.

  lemma {:induction false} EvalWellFormed(fl: FloatLib, t: Tree)
    requires TreeOk(t) && Finite(fl, t) && StringsValid(t)
    ensures WellFormed(Eval(fl, t))
    decreases t
  {
    match t
    case TString(items) => Utf8.CStrRun(Utf8.ACCEPT, ItemsText(items));
    case TArray(es) => ElemsWellFormed(fl, es);
    case TObject(ms) =>
      MembersWellFormed(fl, ms);
      SetAllKeepsStore(MemberPairs(fl, ms));
    case _ =>
  }

  lemma {:induction false} ElemsWellFormed(fl: FloatLib, es: Elems)
    requires ElemsOk(es) && ElemsFinite(fl, es) && ElemsStringsValid(es)
    ensures forall i :: 0 <= i < |ElemValues(fl, es)| ==> WellFormed(ElemValues(fl, es)[i])
    decreases es
  {
    EvalWellFormed(fl, es.v);
    if es.MoreElems? {
      ElemsWellFormed(fl, es.next);
    }
  }

  lemma {:induction false} MembersWellFormed(fl: FloatLib, ms: Members)
    requires MembersOk(ms) && MembersFinite(fl, ms) && MembersStringsValid(ms)
    ensures forall i :: 0 <= i < |MemberPairs(fl, ms)| ==>
              Text(MemberPairs(fl, ms)[i].key) && WellFormed(MemberPairs(fl, ms)[i].val)
    decreases ms
  {
    EvalWellFormed(fl, ms.v);
    Utf8.CStrRun(Utf8.ACCEPT, ItemsText(ms.key));
    if ms.MoreMembers? {
      MembersWellFormed(fl, ms.next);
    }
  }

  /** Every accepted text becomes a document with unique keys and valid NUL-free strings. */
  lemma ParseWellFormed(fl: FloatLib, text: bytes, limit: nat)
    requires Parse(fl, text, limit).Some?
    ensures WellFormed(Parse(fl, text, limit).value)
  {
    ReadDocumentSound(fl, text, limit);
    var doc := ReadDocument(fl, text, limit).value;
    SecondUtf8CheckNeverFails(doc);
    EvalWellFormed(fl, doc.v);
  }
}
