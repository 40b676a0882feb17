// DG11: place of birth and personal number, from the elements of template 0x6B.
module Dg11 {
  import opened Prelude
  import opened Text
  import opened BerTlv
  import opened Td3

  const PLACE_TAG := 0x5F11
  const NUMBER_TAG := 0x5F10

  function PlaceOfBirth(text: string): string {
    Strip(Join(", ", Filter(p => p != "", Split(text, '<'))))
  }

  function PersonalNumber(text: string): string {
    Strip(Without(text, '<'))
  }

  // One element noted in the dictionary; later elements overwrite earlier ones.
  function Note(out: Fields, tag: nat, text: string): Fields {
    if tag == PLACE_TAG && text != "" then out["place_of_birth" := PlaceOfBirth(text)]
    else if tag == NUMBER_TAG && text != "" then out["personal_number" := PersonalNumber(text)]
    else out
  }

  // decode stands for bytes.decode("utf-8", "replace").
  function Collected(elements: seq<(nat, bytes)>, decode: bytes -> string): Fields {
    if elements == [] then map[]
    else
      var n := |elements| - 1;
      Note(Collected(elements[..n], decode), elements[n].0, Strip(decode(elements[n].1)))
  }

  function PersonalDetails(dg11: bytes, decode: bytes -> string): Result<Fields> {
    match Read(dg11)
    case Err(MrzFault) => Ok(map[])
    case Err(fault) => Err(fault)
    case Ok(t) =>
      var elements :- Elements(if t.tag == 0x6B then t.value else dg11);
      Ok(Collected(elements, decode))
  }

  // What remains of a walk, put behind what was visited so far.
  ghost function Resume(visited: seq<(nat, bytes)>, rest: bytes): Result<seq<(nat, bytes)>> {
    var more :- Elements(rest);
    Ok(visited + more)
  }

  method ParseDg11(dg11: bytes, decode: bytes -> string) returns (r: Result<Fields>)
    ensures r == PersonalDetails(dg11, decode)
  {
    var first := ReadTlv(dg11);
    if first.Err? {
      if first.fault == MrzFault { return Ok(map[]); }
      return Err(first.fault);
    }
    var rest := if first.value.tag == 0x6B then first.value.value else dg11;
    ghost var body, visited := rest, [];
    assert forall es: seq<(nat, bytes)> :: [] + es == es;
    var out: Fields := map[];
    while rest != []
      invariant out == Collected(visited, decode)
      invariant Resume(visited, rest) == Elements(body)
      decreases |rest|
    {
      var next := ReadTlv(rest);
      if next.Err? {
        if next.fault == MrzFault { break; }
        return Err(next.fault);
      }
      ReadConsumes(rest);
      ResumeStep(visited, rest);
      var t := next.value;
      assert (visited + [(t.tag, t.value)])[..|visited|] == visited;
      out := Note(out, t.tag, Strip(decode(t.value)));
      visited := visited + [(t.tag, t.value)];
      rest := t.rest;
    }
    assert visited + [] == visited;
    r := Ok(out);
  }

  lemma ResumeStep(visited: seq<(nat, bytes)>, rest: bytes)
    requires rest != [] && Read(rest).Ok?
    ensures var t := Read(rest).value; Resume(visited, rest) == Resume(visited + [(t.tag, t.value)], t.rest)
  {
    var t := Read(rest).value;
    ReadConsumes(rest);
    if Elements(t.rest).Ok? {
      assert visited + ([(t.tag, t.value)] + Elements(t.rest).value) ==
        visited + [(t.tag, t.value)] + Elements(t.rest).value;
    }
  }

  // Some encoders leave the template out: then the elements stand on their own.
  lemma BareDg11(elements: seq<Element>, decode: bytes -> string)
    requires elements != [] && forall e :: e in elements ==> e.Valid()
    requires BigEndian(elements[0].tag) != 0x6B
    ensures PersonalDetails(EncodeAll(elements), decode) == Ok(Collected(Visited(elements), decode))
  {
    assert elements[0] in elements;
    ReadUndoesEncoding(elements[0], EncodeAll(elements[1..]));
    ElementsOfEncoding(elements);
  }

  // Nothing to read is no fields.
  lemma EmptyDg11(decode: bytes -> string)
    ensures PersonalDetails([], decode) == Ok(map[])
  {}

  lemma OneByteTag(tag: byte)
    ensures BigEndian([tag]) == tag
  {
    var t: bytes := [tag];
    BigEndianSnoc(t, 0);
    assert t[..1] == t && t[..0] == [];
  }

  // A DG11 built from encoded elements is read element by element, in order.
  lemma BuiltDg11(elements: seq<Element>, decode: bytes -> string)
    requires forall e :: e in elements ==> e.Valid()
    requires |EncodeAll(elements)| < 0x10000
    ensures PersonalDetails(Wrap([0x6B], EncodeAll(elements)), decode) == Ok(Collected(Visited(elements), decode))
  {
    ReadWrapped([0x6B], EncodeAll(elements));
    OneByteTag(0x6B);
    ElementsOfEncoding(elements);
  }

  // Only the two known fields appear, and each reports the last element that carries text.
  lemma {:induction false} LastElementWins(elements: seq<(nat, bytes)>, decode: bytes -> string, i: nat)
    requires i < |elements| && Strip(decode(elements[i].1)) != ""
    requires forall k :: i < k < |elements| ==> elements[k].0 != elements[i].0 || Strip(decode(elements[k].1)) == ""
    ensures var out, text := Collected(elements, decode), Strip(decode(elements[i].1));
            && out.Keys <= {"place_of_birth", "personal_number"}
            && (elements[i].0 == PLACE_TAG ==> "place_of_birth" in out && out["place_of_birth"] == PlaceOfBirth(text))
            && (elements[i].0 == NUMBER_TAG ==>
                "personal_number" in out && out["personal_number"] == PersonalNumber(text))
  {
    var n := |elements| - 1;
    OnlyKnownFields(elements[..n], decode);
    if i < n {
      LastElementWins(elements[..n], decode, i);
    }
  }

  // A field is reported exactly when some element with its tag carries text.
  lemma {:induction false} ReportedWhenPresent(elements: seq<(nat, bytes)>, decode: bytes -> string)
    ensures var out := Collected(elements, decode);
            && ("place_of_birth" in out <==> exists e :: e in elements && e.0 == PLACE_TAG && Strip(decode(e.1)) != "")
            && ("personal_number" in out <==>
                exists e :: e in elements && e.0 == NUMBER_TAG && Strip(decode(e.1)) != "")
  {
    if elements != [] {
      var n := |elements| - 1;
      ReportedWhenPresent(elements[..n], decode);
      assert elements == elements[..n] + [elements[n]];
    }
  }

  // The components of a place, without filler or white space, joined by a comma and a space.
  lemma PlaceOfTwo(p: string, q: string)
    requires p != [] && q != [] && '<' !in p && '<' !in q
    requires !IsSpace(p[0]) && !IsSpace(q[|q| - 1])
    ensures PlaceOfBirth(p + "<" + q) == p + ", " + q && PlaceOfBirth(p + "<" + "<" + q) == p + ", " + q
  {
    TwoComponents(p, q);
    StripNothing(p + ", " + q);
  }

  lemma TwoComponents(p: string, q: string)
    requires p != [] && q != [] && '<' !in p && '<' !in q
    ensures Join(", ", Filter(x => x != "", Split(p + "<" + q, '<'))) == p + ", " + q
    ensures Join(", ", Filter(x => x != "", Split(p + "<" + "<" + q, '<'))) == p + ", " + q
  {
    var keep := (x: string) => x != "";
    SplitWhole(q, '<');
    assert p + "<" + q == p + ['<'] + q && p + "<" + "<" + q == p + ['<'] + ([] + ['<'] + q);
    SplitFirst(p, '<', q);
    SplitFirst(p, '<', [] + ['<'] + q);
    SplitFirst([], '<', q);
    assert [p] + [q] == [p, q] && [p] + ([[]] + [q]) == [p, [], q];
    assert [p, q][1..] == [q] && [q][1..] == [] && [p, [], q][1..] == [[], q] && [[], q][1..] == [q];
    assert Filter(keep, [q]) == [q];
    assert Filter(keep, [[], q]) == [q];
    assert Filter(keep, [p, q]) == [p, q] && Filter(keep, [p, [], q]) == [p, q];
  }

  lemma StripNothing(s: string)
    requires s != [] && !IsSpace(s[0]) && !IsSpace(s[|s| - 1])
    ensures Strip(s) == s
  {}

  // A number keeps its characters in order, without the filler.
  lemma NumberWithoutFiller(p: string, q: string)
    requires p != [] && q != [] && '<' !in p && '<' !in q
    requires !IsSpace(p[0]) && !IsSpace(q[|q| - 1])
    ensures PersonalNumber(p + "<" + q) == p + q
  {
    FilterConcat(d => d != '<', p + "<", q);
    FilterConcat(d => d != '<', p, "<");
    FilterAll(d => d != '<', p);
    FilterAll(d => d != '<', q);
    FilterNone(d => d != '<', "<");
    assert p + [] == p && (p + q)[0] == p[0] && (p + q)[|p + q| - 1] == q[|q| - 1];
    StripNothing(p + q);
  }

  // An element that holds nothing but filler carries text, and yields an empty field.
  lemma FillerIsEmptyPlace()
    ensures Strip("<") != "" && PlaceOfBirth("<") == "" && PersonalNumber("<") == ""
  {
    assert Split("<", '<') == ["", ""] by {
      assert "<"[1..] == "";
      SplitFirst("", '<', "");
      SplitWhole("", '<');
      assert "" + ['<'] + "" == "<";
    }
    assert Filter(p => p != "", ["", ""]) == [] by {
      FilterNone(p => p != "", ["", ""]);
    }
    assert Without("<", '<') == "";
  }

  lemma {:induction false} OnlyKnownFields(elements: seq<(nat, bytes)>, decode: bytes -> string)
    ensures Collected(elements, decode).Keys <= {"place_of_birth", "personal_number"}
  {
    if elements != [] {
      OnlyKnownFields(elements[..|elements| - 1], decode);
    }
  }

  lemma DetailsAreKnown(dg11: bytes, decode: bytes -> string)
    ensures PersonalDetails(dg11, decode).Ok? ==>
            PersonalDetails(dg11, decode).value.Keys <= {"place_of_birth", "personal_number"}
  {
    if PersonalDetails(dg11, decode).Ok? && Read(dg11).Ok? {
      var t := Read(dg11).value;
      OnlyKnownFields(Elements(if t.tag == 0x6B then t.value else dg11).value, decode);
    }
  }
}
