/**
 From masked tokens back to a tree: whatever the edits, the spliced tokens are
 the tokens of a tree with the same keys, shape, words and whitespace.
 */
module RedactTree {
  import opened Bytes
  import opened Json
  import opened RedactTokens

  /** The same tree, except that string values may be masked and numbers may have become mask strings. */
  ghost predicate MaskedValue(mask: string -> seq<Piece>, v: Value, v': Value) {
    match v
    case Word(_) => v' == v
    case Number(_) => v' == v || exists tag :: v' == Text(mask(tag))
    case Text(body) => v'.Text? && Masked(mask, body, v'.body)
    case Group(named, gap, items) =>
      v'.Group? && v'.named == named && v'.gap == gap && MaskedItems(mask, items, v'.items)
  }

  ghost predicate MaskedItems(mask: string -> seq<Piece>, items: Items, items': Items) {
    match items
    case Done => items'.Done?
    case Next(lead, name, value, trail, rest) =>
      && items'.Next? && items'.lead == lead && items'.name == name && items'.trail == trail
      && MaskedValue(mask, value, items'.value) && MaskedItems(mask, rest, items'.rest)
  }

  ghost predicate MaskedDoc(mask: string -> seq<Piece>, d: Doc, d': Doc) {
    d'.lead == d.lead && d'.trail == d.trail && MaskedValue(mask, d.value, d'.value)
  }

  lemma MaskedUncons(mask: string -> seq<Piece>, t: Token, k: seq<Token>, ts': seq<Token>)
    requires MaskedTokens(mask, [t] + k, ts')
    ensures ts' != [] && MaskedToken(mask, t, ts'[0]) && MaskedTokens(mask, k, ts'[1..])
    ensures ts' == [ts'[0]] + ts'[1..]
  {
    assert ([t] + k)[0] == t;
    forall i | 0 <= i < |k| ensures MaskedToken(mask, k[i], ts'[1..][i]) {
      assert ([t] + k)[i + 1] == k[i];
    }
  }

  lemma {:induction false} RebuildPlain(mask: string -> seq<Piece>, text: bytes, k: seq<Token>, ts': seq<Token>)
    returns (k': seq<Token>)
    requires MaskedTokens(mask, PlainTokens(text, k), ts')
    ensures ts' == PlainTokens(text, k') && MaskedTokens(mask, k, k')
  {
    if text == [] {
      k' := ts';
    } else {
      MaskedUncons(mask, Plain(text[0]), PlainTokens(text[1..], k), ts');
      k' := RebuildPlain(mask, text[1..], k, ts'[1..]);
    }
  }

  lemma {:induction false} RebuildValue(mask: string -> seq<Piece>, v: Value, k: seq<Token>, ts': seq<Token>)
    returns (v': Value, k': seq<Token>)
    requires IsMask(mask) && ValidValue(v) && MaskedTokens(mask, ValueTokens(v, k), ts')
    ensures ts' == ValueTokens(v', k') && MaskedTokens(mask, k, k')
    ensures MaskedValue(mask, v, v') && ValidValue(v')
    decreases v, 0
  {
    match v
    case Word(text) =>
      v' := v;
      k' := RebuildPlain(mask, text, k, ts');
    case Number(text) =>
      MaskedUncons(mask, Num(text), k, ts');
      k' := ts'[1..];
      v' := if ts'[0] == Num(text) then v else Text(ts'[0].body);
    case Text(body) =>
      MaskedUncons(mask, Str(body), k, ts');
      k' := ts'[1..];
      v' := Text(ts'[0].body);
    case Group(named, gap, items) =>
      v', k' := RebuildGroup(mask, named, gap, items, k, ts');
  }

  lemma {:induction false} RebuildGroup(mask: string -> seq<Piece>, named: bool, gap: bytes, items: Items,
                                        k: seq<Token>, ts': seq<Token>)
    returns (v': Value, k': seq<Token>)
    requires IsMask(mask) && IsBlank(gap) && ValidItems(items, named)
    requires MaskedTokens(mask, ValueTokens(Group(named, gap, items), k), ts')
    ensures ts' == ValueTokens(v', k') && MaskedTokens(mask, k, k')
    ensures MaskedValue(mask, Group(named, gap, items), v') && ValidValue(v')
    decreases items, 1
  {
    var close := [Close(named)] + k;
    MaskedUncons(mask, Open(named), PlainTokens(gap, ItemTokens(items, close)), ts');
    var inner := RebuildPlain(mask, gap, ItemTokens(items, close), ts'[1..]);
    var items', close' := RebuildItems(mask, named, items, close, inner);
    MaskedUncons(mask, Close(named), k, close');
    k' := close'[1..];
    v' := Group(named, gap, items');
  }

  lemma {:induction false} RebuildItems(mask: string -> seq<Piece>, named: bool, items: Items, k: seq<Token>,
                                        ts': seq<Token>)
    returns (items': Items, k': seq<Token>)
    requires IsMask(mask) && ValidItems(items, named) && MaskedTokens(mask, ItemTokens(items, k), ts')
    ensures ts' == ItemTokens(items', k') && MaskedTokens(mask, k, k')
    ensures MaskedItems(mask, items, items') && ValidItems(items', named)
    decreases items, 0
  {
    match items
    case Done =>
      items', k' := Done, ts';
    case Next(lead, name, value, trail, rest) =>
      var k1 := if rest.Done? then k else [Plain(COMMA)] + ItemTokens(rest, k);
      var value', k1' := RebuildItem(mask, lead, name, value, trail, k1, ts');
      if rest.Done? {
        items', k' := Next(lead, name, value', trail, Done), k1';
      } else {
        MaskedUncons(mask, Plain(COMMA), ItemTokens(rest, k), k1');
        var rest';
        rest', k' := RebuildItems(mask, named, rest, k, k1'[1..]);
        items' := Next(lead, name, value', trail, rest');
      }
  }

  lemma {:induction false} RebuildItem(mask: string -> seq<Piece>, lead: bytes, name: Option<Name>, value: Value,
                                       trail: bytes, k: seq<Token>, ts': seq<Token>)
    returns (value': Value, k': seq<Token>)
    requires IsMask(mask) && ValidValue(value)
    requires MaskedTokens(mask, PlainTokens(lead, NameTokens(name, ValueTokens(value, PlainTokens(trail, k)))), ts')
    ensures ts' == PlainTokens(lead, NameTokens(name, ValueTokens(value', PlainTokens(trail, k'))))
    ensures MaskedTokens(mask, k, k') && MaskedValue(mask, value, value') && ValidValue(value')
    decreases value, 1
  {
    var k2 := PlainTokens(trail, k);
    var k3 := ValueTokens(value, k2);
    var t1 := RebuildPlain(mask, lead, NameTokens(name, k3), ts');
    var t2 := RebuildName(mask, name, k3, t1);
    var t3;
    value', t3 := RebuildValue(mask, value, k2, t2);
    k' := RebuildPlain(mask, trail, k, t3);
  }

  lemma RebuildName(mask: string -> seq<Piece>, name: Option<Name>, k: seq<Token>, ts': seq<Token>)
    returns (k': seq<Token>)
    requires MaskedTokens(mask, NameTokens(name, k), ts')
    ensures ts' == NameTokens(name, k') && MaskedTokens(mask, k, k')
  {
    match name
    case None =>
      k' := ts';
    case Some(n) =>
      var k1 := PlainTokens(n.after, k);
      MaskedUncons(mask, Key(n.key), PlainTokens(n.before, [Plain(COLON)] + k1), ts');
      var t1 := RebuildPlain(mask, n.before, [Plain(COLON)] + k1, ts'[1..]);
      MaskedUncons(mask, Plain(COLON), k1, t1);
      k' := RebuildPlain(mask, n.after, k, t1[1..]);
  }

  /** Masked tokens of a JSON text are the tokens of a JSON text of the same shape. */
  lemma RebuildDoc(mask: string -> seq<Piece>, d: Doc, ts': seq<Token>) returns (d': Doc)
    requires IsMask(mask) && ValidDoc(d) && MaskedTokens(mask, DocTokens(d), ts')
    ensures ValidDoc(d') && DocTokens(d') == ts' && MaskedDoc(mask, d, d')
  {
    var k := PlainTokens(d.trail, []);
    var t1 := RebuildPlain(mask, d.lead, ValueTokens(d.value, k), ts');
    var value', t2 := RebuildValue(mask, d.value, k, t1);
    var t3 := RebuildPlain(mask, d.trail, [], t2);
    d' := Doc(d.lead, value', d.trail);
  }
}
