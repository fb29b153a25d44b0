/**
 What the parser makes of any text: objects are maps sorted by key, and whatever was
 accepted can be printed and parsed again.
 */
module JsonReparse {
  import opened Bytes
  import opened Options
  import opened JsonText
  import opened JsonParse
  import opened JsonRoundTrip

  // ---------- Objects ----------

  /** The value of a key. */
  function Lookup(ps: seq<Property>, key: seq<Byte>): Option<Json> {
    if ps == [] then None else if ps[0].key == key then Some(ps[0].value) else Lookup(ps[1..], key)
  }

  /** `O[K] = V` on a map: the key has the new value, the other keys keep theirs. */
  lemma {:induction false} InsertFinds(ps: seq<Property>, key: seq<Byte>, value: Json, other: seq<Byte>)
    ensures Lookup(Insert(ps, key, value), other) == if other == key then Some(value) else Lookup(ps, other)
  {
    if ps == [] || BytesLess(key, ps[0].key) || key == ps[0].key {
      assert ([Property(key, value)] + ps)[1..] == ps;
      if ps != [] {
        assert ([Property(key, value)] + ps[1..])[1..] == ps[1..];
      }
    } else {
      InsertFinds(ps[1..], key, value, other);
      assert ([ps[0]] + Insert(ps[1..], key, value))[1..] == Insert(ps[1..], key, value);
    }
  }

  lemma {:induction false} InsertFirstKey(ps: seq<Property>, key: seq<Byte>, value: Json)
    ensures Insert(ps, key, value) != []
    ensures Insert(ps, key, value)[0].key == key || (ps != [] && Insert(ps, key, value)[0].key == ps[0].key)
  {
  }

  lemma SortedTail(ps: seq<Property>)
    requires ps != [] && SortedKeys(ps)
    ensures SortedKeys(ps[1..])
    ensures |ps| > 1 ==> BytesLess(ps[0].key, ps[1].key)
  {
  }

  lemma SortedCons(p: Property, ps: seq<Property>)
    requires SortedKeys(ps) && (ps != [] ==> BytesLess(p.key, ps[0].key))
    ensures SortedKeys([p] + ps)
  {
    assert forall i :: 0 < i < |[p] + ps| ==> ([p] + ps)[i] == ps[i - 1];
  }

  lemma {:induction false} InsertKeepsSorted(ps: seq<Property>, key: seq<Byte>, value: Json)
    requires SortedKeys(ps)
    ensures SortedKeys(Insert(ps, key, value))
  {
    if ps == [] || BytesLess(key, ps[0].key) {
      SortedCons(Property(key, value), ps);
    } else {
      SortedTail(ps);
      if key == ps[0].key {
        SortedCons(Property(key, value), ps[1..]);
      } else {
        BytesLessTotal(key, ps[0].key);
        InsertKeepsSorted(ps[1..], key, value);
        InsertFirstKey(ps[1..], key, value);
        SortedCons(ps[0], Insert(ps[1..], key, value));
      }
    }
  }

  /** Objects are sorted at every depth. */
  predicate ObjectsSorted(e: Json) {
    match e
    case Array(es) => forall i :: 0 <= i < |es| ==> ObjectsSorted(es[i])
    case Object(ps) => SortedKeys(ps) && ValuesSorted(ps)
    case _ => true
  }

  predicate ValuesSorted(ps: seq<Property>) {
    forall i :: 0 <= i < |ps| ==> ObjectsSorted(ps[i].value)
  }

  predicate NumbersPrintBack(io: NumberIO, e: Json) {
    match e
    case Number(d) => PrintsBack(io, d)
    case Array(es) => forall i :: 0 <= i < |es| ==> NumbersPrintBack(io, es[i])
    case Object(ps) => forall i :: 0 <= i < |ps| ==> NumbersPrintBack(io, ps[i].value)
    case _ => true
  }

  lemma {:induction false} SortedIsValid(io: NumberIO, e: Json)
    requires ObjectsSorted(e) && NumbersPrintBack(io, e)
    ensures Valid(io, e)
  {
    match e
    case Array(es) =>
      forall i | 0 <= i < |es| ensures Valid(io, es[i]) {
        SortedIsValid(io, es[i]);
      }
    case Object(ps) =>
      forall i | 0 <= i < |ps| ensures Valid(io, ps[i].value) {
        SortedIsValid(io, ps[i].value);
      }
    case _ =>
  }

  lemma {:induction false} InsertKeepsValues(ps: seq<Property>, key: seq<Byte>, value: Json)
    requires ValuesSorted(ps) && ObjectsSorted(value)
    ensures ValuesSorted(Insert(ps, key, value))
  {
    if ps != [] && !BytesLess(key, ps[0].key) && key != ps[0].key {
      InsertKeepsValues(ps[1..], key, value);
    }
  }

  // ---------- Any text ----------

  lemma {:induction false} WordValue(s: seq<Byte>, word: seq<Byte>, value: Json)
    ensures ParseWord(s, word, value).Good? ==> ParseWord(s, word, value).value == value
    decreases |word|
  {
    if word != [] && Peek(s) == word[0] {
      WordValue(Advance(s), word[1..], value);
    }
  }

  lemma {:induction false} ParsedIsSorted(io: NumberIO, s: seq<Byte>)
    ensures ParseExpr(io, s).Good? ==> ObjectsSorted(ParseExpr(io, s).value)
    decreases |s|, 1
  {
    var t := EatWhitespace(s);
    if t != [] {
      var c, u := t[0], t[1..];
      if c == 110 {
        WordValue(u, [117, 108, 108], Null);
      } else if c == 116 {
        WordValue(u, [114, 117, 101], Boolean(true));
      } else if c == 102 {
        WordValue(u, [97, 108, 115, 101], Boolean(false));
      } else if c == OPEN_ARRAY {
        ElementsAreSorted(io, EatWhitespace(u), []);
      } else if c == OPEN_OBJECT {
        PropertiesAreSorted(io, EatWhitespace(u), []);
      }
    }
  }

  lemma {:induction false} ElementsAreSorted(io: NumberIO, s: seq<Byte>, elements: seq<Json>)
    requires forall i :: 0 <= i < |elements| ==> ObjectsSorted(elements[i])
    ensures ParseElements(io, s, elements).Good? ==> ObjectsSorted(ParseElements(io, s, elements).value)
    decreases |s|, 2
  {
    ParsedIsSorted(io, s);
    if ParseExpr(io, s).Good? {
      var t := EatWhitespace(ParseExpr(io, s).rest);
      if Peek(t) == COMMA {
        ElementsAreSorted(io, EatWhitespace(Advance(t)), elements + [ParseExpr(io, s).value]);
      }
    }
  }

  lemma {:induction false} PropertiesAreSorted(io: NumberIO, s: seq<Byte>, properties: seq<Property>)
    requires SortedKeys(properties) && ValuesSorted(properties)
    ensures ParseProperties(io, s, properties).Good? ==> ObjectsSorted(ParseProperties(io, s, properties).value)
    decreases |s|, 3
  {
    var r := ParseProperty(io, s, properties);
    if r.Good? {
      PropertyIsSorted(io, s, properties);
      var t := EatWhitespace(r.rest);
      if Peek(t) == COMMA {
        PropertiesAreSorted(io, EatWhitespace(Advance(t)), r.value);
      }
    }
  }

  lemma {:induction false} PropertyIsSorted(io: NumberIO, s: seq<Byte>, properties: seq<Property>)
    requires SortedKeys(properties) && ValuesSorted(properties) && ParseProperty(io, s, properties).Good?
    ensures SortedKeys(ParseProperty(io, s, properties).value) && ValuesSorted(ParseProperty(io, s, properties).value)
    decreases |s|, 2
  {
    var key := ParseKey(s);
    var value := ParseExpr(io, key.rest).value;
    ParsedIsSorted(io, key.rest);
    InsertKeepsSorted(properties, key.value, value);
    InsertKeepsValues(properties, key.value, value);
  }

  /** Main result: the value of any accepted text, if its numbers print back, prints to
      a text that is accepted and has the same value. */
  lemma AcceptedReparses(io: NumberIO, s: seq<Byte>, style: Style)
    requires ParseDocument(io, s).Good? && NumbersPrintBack(io, ParseDocument(io, s).value)
    ensures var e := ParseDocument(io, s).value;
            ParseDocument(io, Print(io, e, style, 0)) == Good(e, [])
  {
    ParsedIsSorted(io, s);
    SortedIsValid(io, ParseDocument(io, s).value);
    PrintThenParse(io, ParseDocument(io, s).value, style);
  }
}
