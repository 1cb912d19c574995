/**
 What a client reads in the answer to an attribute request: data elements, as section 3
 of the service discovery protocol of Bluetooth Core 4.0, volume 3, part B, defines them.
 The answer is a sequence of one sequence for each record that matches, and these hold
 the attributes that were asked for, each as its identifier and its value.
 */
module SdpAnswer {
  import opened Bytes
  import opened Sdp

  const UINT := 1
  const SEQUENCE := 6

  /** The whole length of the data element at the head of the bytes, from its type and size descriptor. */
  function Extent(b: seq<byte>): Option<nat> {
    if b == [] then None
    else
      var kind, size := b[0] / 8, b[0] % 8;
      if size == 0 then Some(if kind == 0 then 1 else 2)
      else if size == 1 then Some(3)
      else if size == 2 then Some(5)
      else if size == 3 then Some(9)
      else if size == 4 then Some(17)
      else if size == 5 then (if |b| < 2 then None else Some(2 + b[1] as nat))
      else if size == 6 then (if |b| < 3 then None else Some(3 + Be16(b[1], b[2]) as nat))
      else if |b| < 5 then None
      else Some(5 + 0x1_0000 * Be16(b[1], b[2]) as nat + Be16(b[3], b[4]) as nat)
  }

  /** The bytes are exactly one data element. */
  predicate IsElement(b: seq<byte>) {
    Extent(b) == Some(|b|)
  }

  /** The first data element and what is behind it. */
  function ReadElement(b: seq<byte>): (r: Option<(seq<byte>, seq<byte>)>)
    ensures r.Some? ==> |r.value.0| > 0 && |r.value.1| < |b|
  {
    if Extent(b).Some? && Extent(b).value <= |b| then Some((b[..Extent(b).value], b[Extent(b).value..])) else None
  }

  /** What is inside a sequence with a two-byte length. */
  function Inside(element: seq<byte>): Option<seq<byte>> {
    if |element| >= 3 && element[0] == 8 * SEQUENCE + 6 && Extent(element) == Some(|element|) then Some(element[3..]) else None
  }

  /** An attribute identifier is an unsigned integer of two bytes. */
  function ReadId(element: seq<byte>): Option<half> {
    if |element| == 3 && element[0] == 8 * UINT + 1 then Some(Be16(element[1], element[2])) else None
  }

  function ReadAttributes(b: seq<byte>): Option<seq<(half, seq<byte>)>>
    decreases |b|
  {
    if b == [] then Some([])
    else
      match ReadElement(b)
      case None => None
      case Some((first, rest)) =>
        match ReadElement(rest)
        case None => None
        case Some((value, more)) =>
          var id, others := ReadId(first), ReadAttributes(more);
          if id.Some? && others.Some? then Some([(id.value, value)] + others.value) else None
  }

  function ReadRecords(b: seq<byte>): Option<seq<seq<(half, seq<byte>)>>>
    decreases |b|
  {
    if b == [] then Some([])
    else
      match ReadElement(b)
      case None => None
      case Some((first, rest)) =>
        if Inside(first) == None then None
        else
          var attributes, others := ReadAttributes(Inside(first).value), ReadRecords(rest);
          if attributes.Some? && others.Some? then Some([attributes.value] + others.value) else None
  }

  function ReadAnswer(b: seq<byte>): Option<seq<seq<(half, seq<byte>)>>> {
    match Inside(b)
    case None => None
    case Some(lists) => ReadRecords(lists)
  }

  // ------------------------------------------------------------ what was asked for

  function Wanted(attributes: seq<Attribute>): seq<(half, seq<byte>)> {
    if attributes == [] then []
    else (if attributes[0].wanted then [(attributes[0].id, attributes[0].value)] else []) + Wanted(attributes[1..])
  }

  function Matching(services: seq<Record>): seq<seq<(half, seq<byte>)>> {
    if services == [] then []
    else (if services[0].matching then [Wanted(services[0].attributes)] else []) + Matching(services[1..])
  }

  /** The values are data elements. */
  predicate Elements(attributes: seq<Attribute>) {
    forall i :: 0 <= i < |attributes| ==> IsElement(attributes[i].value)
  }

  predicate AllElements(services: seq<Record>) {
    forall i :: 0 <= i < |services| ==> Elements(services[i].attributes)
  }

  // ------------------------------------------------------------------ proofs

  lemma ElementRead(b: seq<byte>, more: seq<byte>)
    requires IsElement(b)
    ensures ReadElement(b + more) == Some((b, more))
  {
    assert b != [];
    assert (b + more)[0] == b[0];
    assert |b| >= 2 ==> (b + more)[1] == b[1];
    assert |b| >= 3 ==> (b + more)[2] == b[2];
    assert |b| >= 5 ==> (b + more)[3] == b[3] && (b + more)[4] == b[4];
    assert Extent(b + more) == Extent(b);
    assert (b + more)[..|b|] == b && (b + more)[|b|..] == more;
  }

  lemma IdElement(id: half)
    ensures IsElement([0x09] + Net16(id)) && ReadId([0x09] + Net16(id)) == Some(id)
  {
    var b := [0x09 as byte] + Net16(id);
    assert b[1] == id / 0x100 && b[2] == id % 0x100;
  }

  lemma SequenceElement(content: seq<byte>)
    requires |content| < 0x1_0000
    ensures IsElement(Des(|content|) + content) && Inside(Des(|content|) + content) == Some(content)
  {
    var b := Des(|content|) + content;
    assert b[0] == 0x36 && b[1] == |content| / 0x100 && b[2] == |content| % 0x100;
    assert Be16(b[1], b[2]) as nat == |content|;
    assert b[3..] == content;
  }

  lemma {:induction false} AttributesRead(attributes: seq<Attribute>)
    requires Elements(attributes)
    ensures ReadAttributes(Filtered(attributes)) == Some(Wanted(attributes))
    decreases |attributes|
  {
    if attributes != [] {
      var a, more := attributes[0], Filtered(attributes[1..]);
      AttributesRead(attributes[1..]);
      if a.wanted {
        assert IsElement(a.value);
        IdElement(a.id);
        ElementRead([0x09] + Net16(a.id), a.value + more);
        ElementRead(a.value, more);
        hide Extent, Net16, ReadId, IsElement, ReadElement;
        ConcatAssoc([0x09] + Net16(a.id), a.value, more);
        assert ReadElement(Filtered(attributes)) == Some(([0x09] + Net16(a.id), a.value + more));
      } else {
        assert [] + more == more && [] + Wanted(attributes[1..]) == Wanted(attributes[1..]);
      }
    }
  }

  lemma {:induction false} RecordsRead(services: seq<Record>)
    requires AllElements(services)
    ensures ReadRecords(Lists(services)) == Some(Matching(services))
    decreases |services|
  {
    if services != [] {
      var r, more := services[0], Lists(services[1..]);
      RecordsRead(services[1..]);
      if r.matching {
        var content := Filtered(r.attributes);
        AttributesRead(r.attributes);
        SequenceElement(content);
        ElementRead(Des(Size(r)) + content, more);
        hide Extent, Des, Inside, IsElement, ReadElement, ReadAttributes, Filtered, Wanted;
      } else {
        assert [] + more == more && [] + Matching(services[1..]) == Matching(services[1..]);
      }
    }
  }

  /** The answer reads as the attributes asked for of the records that match, if its length fits two bytes. */
  lemma AnswerRead(services: Services)
    requires AllElements(services) && |Lists(services)| < 0x1_0000
    ensures ReadAnswer(OneShot(services)) == Some(Matching(services))
  {
    RecordsRead(services);
    SequenceElement(Lists(services));
    AnswerIs(services);
    hide *;
    InsideRead(OneShot(services), Lists(services));
  }

  lemma AnswerIs(services: Services)
    requires |Lists(services)| < 0x1_0000
    ensures OneShot(services) == Des(|Lists(services)|) + Lists(services)
  {
    hide Des, Lists;
  }

  lemma InsideRead(b: seq<byte>, content: seq<byte>)
    requires Inside(b) == Some(content)
    ensures ReadAnswer(b) == ReadRecords(content)
  {
    hide Inside, ReadRecords;
  }
}
