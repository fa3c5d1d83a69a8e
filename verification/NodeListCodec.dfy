/**
 * The wire form of a contact list (src/vpn/dht.rs, encode_node_list and decode_node_list):
 * a two-byte count, then id, two-byte address length and address of each contact.
 *
 * Addresses are their bytes; `isText` says which byte strings are valid text.
 */
module NodeListCodec {
  import opened Identity

  const U16_MAX: nat := 0xFFFF

  type Contact = (NodeId, seq<byte>)
  type TextCheck = seq<byte> -> bool

  function U16Bytes(n: nat): (b: seq<byte>)
    requires n <= U16_MAX
    ensures |b| == 2
  {
    [n / 256, n % 256]
  }

  function U16Of(hi: byte, lo: byte): (n: nat)
    ensures n <= U16_MAX
  {
    hi * 256 + lo
  }

  lemma U16RoundTrip(n: nat)
    requires n <= U16_MAX
    ensures U16Of(U16Bytes(n)[0], U16Bytes(n)[1]) == n
  {
  }

  function Min(a: nat, b: nat): nat { if a <= b then a else b }

  /** The bytes that fit the length field. */
  function Cut(addr: seq<byte>): (r: seq<byte>)
    ensures |r| <= U16_MAX
  {
    addr[..Min(|addr|, U16_MAX)]
  }

  function EncodeOne(c: Contact): seq<byte> {
    c.0 + U16Bytes(|Cut(c.1)|) + Cut(c.1)
  }

  function EncodeEach(s: seq<Contact>): seq<byte> {
    if s == [] then [] else EncodeOne(s[0]) + EncodeEach(s[1..])
  }

  function Encoded(nodes: seq<Contact>): seq<byte> {
    var count := Min(|nodes|, U16_MAX);
    U16Bytes(count) + EncodeEach(nodes[..count])
  }

  /** Reading at an offset stops silently at the first contact that does not fit into the data. */
  function DecodeFrom(isText: TextCheck, count: nat, data: seq<byte>, at: nat): seq<Contact>
    requires at <= |data|
  {
    if count == 0 || |data| < at + 34 then []
    else
      var len := U16Of(data[at + 32], data[at + 33]);
      if |data| < at + 34 + len then []
      else
        var raw := data[at + 34..at + 34 + len];
        [(data[at..at + 32], if isText(raw) then raw else [])] + DecodeFrom(isText, count - 1, data, at + 34 + len)
  }

  function Decoded(isText: TextCheck, data: seq<byte>): seq<Contact> {
    if |data| < 2 then [] else DecodeFrom(isText, U16Of(data[0], data[1]), data, 2)
  }

  /** The same, consuming the input. */
  function DecodeEach(isText: TextCheck, count: nat, data: seq<byte>): seq<Contact> {
    if count == 0 || |data| < 34 then []
    else
      var len := U16Of(data[32], data[33]);
      if |data| < 34 + len then []
      else
        var addr := data[34..34 + len];
        [(data[..32], if isText(addr) then addr else [])] + DecodeEach(isText, count - 1, data[34 + len..])
  }

  method Encode(nodes: seq<Contact>) returns (buf: seq<byte>)
    ensures buf == Encoded(nodes)
  {
    var count := Min(|nodes|, U16_MAX);
    buf := U16Bytes(count);
    ghost var head := buf;
    for i := 0 to count
      invariant buf + EncodeEach(nodes[i..count]) == Encoded(nodes)
    {
      var len := Min(|nodes[i].1|, U16_MAX);
      assert nodes[i..count][1..] == nodes[i + 1..count];
      assert EncodeEach(nodes[i..count]) ==
        nodes[i].0 + U16Bytes(len) + nodes[i].1[..len] + EncodeEach(nodes[i + 1..count]);
      buf := buf + nodes[i].0;
      buf := buf + U16Bytes(len);
      buf := buf + nodes[i].1[..len];
    }
  }

  lemma {:induction false} DecodeByPosition(isText: TextCheck, count: nat, data: seq<byte>, at: nat)
    requires at <= |data|
    ensures DecodeFrom(isText, count, data, at) == DecodeEach(isText, count, data[at..])
  {
    hide U16Of, DecodeEach, DecodeFrom;
    DecodeStops(isText, count, data, at);
    if count > 0 && at + 34 <= |data| {
      var next := at + 34 + U16Of(data[at + 32], data[at + 33]);
      if next <= |data| {
        DecodeHere(isText, count, data, at);
        DecodeFromHere(isText, count, data, at);
        DecodeByPosition(isText, count - 1, data, next);
      }
    }
  }

  /** Every index is checked to lie inside the data. */
  method Decode(isText: TextCheck, data: seq<byte>) returns (nodes: seq<Contact>)
    ensures nodes == Decoded(isText, data)
  {
    hide U16Of;
    if |data| < 2 {
      return [];
    }
    var count := U16Of(data[0], data[1]);
    nodes := [];
    var offset := 2;
    ghost var all := DecodeFrom(isText, count, data, 2);
    for i := 0 to count
      invariant 2 <= offset <= |data|
      invariant nodes + DecodeFrom(isText, count - i, data, offset) == all
    {
      if offset + 32 + 2 > |data| {
        return;
      }
      var id := data[offset..offset + 32];
      var len := U16Of(data[offset + 32], data[offset + 33]);
      if offset + 34 + len > |data| {
        return;
      }
      var raw := data[offset + 34..offset + 34 + len];
      var addr := if isText(raw) then raw else [];
      Appended(nodes, (id, addr), DecodeFrom(isText, count - i - 1, data, offset + 34 + len));
      nodes := nodes + [(id, addr)];
      offset := offset + 34 + len;
    }
  }

  lemma Appended(s: seq<Contact>, c: Contact, rest: seq<Contact>)
    ensures s + ([c] + rest) == (s + [c]) + rest
  {
  }

  lemma DecodeStops(isText: TextCheck, count: nat, data: seq<byte>, at: nat)
    requires at <= |data|
    ensures count == 0 || |data| < at + 34 || |data| < at + 34 + U16Of(data[at + 32], data[at + 33]) ==>
      DecodeEach(isText, count, data[at..]) == [] && DecodeFrom(isText, count, data, at) == []
  {
    if at + 34 <= |data| {
      assert data[at..][32] == data[at + 32] && data[at..][33] == data[at + 33];
    }
  }

  lemma DecodeFromHere(isText: TextCheck, count: nat, data: seq<byte>, at: nat)
    requires count > 0 && at + 34 <= |data| && at + 34 + U16Of(data[at + 32], data[at + 33]) <= |data|
    ensures var len := U16Of(data[at + 32], data[at + 33]);
      var raw := data[at + 34..at + 34 + len];
      DecodeFrom(isText, count, data, at) ==
        [(data[at..at + 32], if isText(raw) then raw else [])] + DecodeFrom(isText, count - 1, data, at + 34 + len)
  {
  }

  /** One step of the decoder in terms of offsets into the whole input. */
  lemma DecodeHere(isText: TextCheck, count: nat, data: seq<byte>, at: nat)
    requires count > 0 && at + 34 <= |data| && at + 34 + U16Of(data[at + 32], data[at + 33]) <= |data|
    ensures var len := U16Of(data[at + 32], data[at + 33]);
      var raw := data[at + 34..at + 34 + len];
      DecodeEach(isText, count, data[at..]) ==
        [(data[at..at + 32], if isText(raw) then raw else [])] + DecodeEach(isText, count - 1, data[at + 34 + len..])
  {
    var rest, len := data[at..], U16Of(data[at + 32], data[at + 33]);
    assert rest[32] == data[at + 32] && rest[33] == data[at + 33];
    assert rest[..32] == data[at..at + 32] && rest[34..34 + len] == data[at + 34..at + 34 + len];
    assert rest[34 + len..] == data[at + 34 + len..];
  }

  // ---------------------------------------------------------------------
  //  Round trip and truncation
  // ---------------------------------------------------------------------

  // ---------------------------------------------------------------------
  //  The format
  // ---------------------------------------------------------------------

  /** Where contact i starts: after the count, 34 bytes and the address of each contact before it. */
  function Place(nodes: seq<Contact>, i: nat): nat
    requires i <= |nodes|
  {
    if i == 0 then 2 else Place(nodes, i - 1) + 34 + Min(|nodes[i - 1].1|, 65535)
  }

  /** The bytes of one contact: id, length of the address with the high byte first, address. */
  ghost predicate Written(buf: seq<byte>, at: nat, c: Contact) {
    var len := Min(|c.1|, 65535);
    && at + 34 + len <= |buf|
    && buf[at..at + 32] == c.0
    && buf[at + 32] as int * 256 + buf[at + 33] as int == len
    && buf[at + 34..at + 34 + len] == c.1[..len]
  }

  lemma OneWritten(head: seq<byte>, c: Contact, tail: seq<byte>)
    ensures Written(head + EncodeOne(c) + tail, |head|, c)
    ensures |head + EncodeOne(c)| == |head| + 34 + Min(|c.1|, 65535)
  {
    EncodedOne(c, tail);
    var rest, len := EncodeOne(c) + tail, Min(|c.1|, 65535);
    var buf := head + EncodeOne(c) + tail;
    assert buf == head + rest;
    assert buf[|head|..|head| + 32] == rest[..32] && buf[|head| + 34..|head| + 34 + len] == rest[34..34 + len];
    assert buf[|head| + 32] == rest[32] && buf[|head| + 33] == rest[33];
  }

  lemma {:induction false} AllWritten(head: seq<byte>, nodes: seq<Contact>, k: nat)
    requires k <= |nodes| && |head| == Place(nodes, k)
    ensures var buf := head + EncodeEach(nodes[k..]);
      && |buf| == Place(nodes, |nodes|)
      && forall i: nat | k <= i < |nodes| :: Written(buf, Place(nodes, i), nodes[i])
    decreases |nodes| - k
  {
    hide EncodeOne, Written;
    var buf := head + EncodeEach(nodes[k..]);
    if k < |nodes| {
      var one, tail := EncodeOne(nodes[k]), EncodeEach(nodes[k + 1..]);
      assert nodes[k..][0] == nodes[k] && nodes[k..][1..] == nodes[k + 1..];
      OneWritten(head, nodes[k], tail);
      AllWritten(head + one, nodes, k + 1);
      assert buf == head + one + tail == (head + one) + tail;
    }
  }

  /**
   * The wire format, byte by byte: the count in two bytes, high byte first, then every contact at
   * its place, and nothing after the last.
   */
  lemma WireFormat(nodes: seq<Contact>)
    ensures var buf, count := Encoded(nodes), Min(|nodes|, 65535);
      && |buf| >= 2 && buf[0] as int * 256 + buf[1] as int == count
      && |buf| == Place(nodes[..count], count)
      && forall i: nat | i < count :: Written(buf, Place(nodes[..count], i), nodes[i])
  {
    hide Written;
    var count := Min(|nodes|, 65535);
    AllWritten(U16Bytes(count), nodes[..count], 0);
    assert nodes[..count][0..] == nodes[..count];
  }

  // ---------------------------------------------------------------------
  //  What survives
  // ---------------------------------------------------------------------

  /** What survives the length fields. */
  function Surviving(isText: TextCheck, s: seq<Contact>): seq<Contact> {
    seq(|s|, i requires 0 <= i < |s| => SurvivingOne(isText, s[i]))
  }

  function SurvivingOne(isText: TextCheck, c: Contact): Contact {
    (c.0, if isText(Cut(c.1)) then Cut(c.1) else [])
  }

  lemma EncodedOne(c: Contact, tail: seq<byte>)
    ensures var data := EncodeOne(c) + tail; var n := |Cut(c.1)|;
      && |EncodeOne(c)| == 34 + n
      && data[..32] == c.0 && data[34..34 + n] == Cut(c.1) && data[34 + n..] == tail
      && U16Of(data[32], data[33]) == n
  {
    var data, n := EncodeOne(c) + tail, |Cut(c.1)|;
    U16RoundTrip(n);
    assert data[32] == U16Bytes(n)[0] && data[33] == U16Bytes(n)[1];
  }

  lemma ReadsWholeContact(isText: TextCheck, c: Contact, count: nat, tail: seq<byte>)
    ensures DecodeEach(isText, count + 1, EncodeOne(c) + tail) ==
      [SurvivingOne(isText, c)] + DecodeEach(isText, count, tail)
  {
    EncodedOne(c, tail);
  }

  lemma StopsInsideContact(isText: TextCheck, c: Contact, count: nat, k: nat)
    requires k < |EncodeOne(c)|
    ensures DecodeEach(isText, count, EncodeOne(c)[..k]) == []
  {
    EncodedOne(c, []);
    assert EncodeOne(c) + [] == EncodeOne(c);
  }

  /** Decoding any prefix of an encoding gives a prefix of the contacts, all of them from the whole. */
  lemma {:induction false} DecodePrefix(isText: TextCheck, s: seq<Contact>, k: nat)
    requires k <= |EncodeEach(s)|
    ensures DecodeEach(isText, |s|, EncodeEach(s)[..k]) <= Surviving(isText, s)
    ensures k == |EncodeEach(s)| ==> DecodeEach(isText, |s|, EncodeEach(s)[..k]) == Surviving(isText, s)
  {
    hide DecodeEach, EncodeOne, SurvivingOne;
    if s != [] {
      var one, rest := EncodeOne(s[0]), EncodeEach(s[1..]);
      assert Surviving(isText, s) == [SurvivingOne(isText, s[0])] + Surviving(isText, s[1..]);
      if k < |one| {
        assert EncodeEach(s)[..k] == one[..k];
        StopsInsideContact(isText, s[0], |s|, k);
      } else {
        assert EncodeEach(s)[..k] == one + rest[..k - |one|];
        ReadsWholeContact(isText, s[0], |s| - 1, rest[..k - |one|]);
        DecodePrefix(isText, s[1..], k - |one|);
      }
    } else {
      NothingDecoded(isText, EncodeEach(s)[..k]);
    }
  }

  lemma NothingDecoded(isText: TextCheck, data: seq<byte>)
    ensures DecodeEach(isText, 0, data) == []
  {
  }

  lemma FittingContactsSurvive(isText: TextCheck, nodes: seq<Contact>)
    requires forall c | c in nodes :: |c.1| <= U16_MAX && isText(c.1)
    ensures Surviving(isText, nodes) == nodes
  {
    forall i | 0 <= i < |nodes|
      ensures SurvivingOne(isText, nodes[i]) == nodes[i]
    {
      assert nodes[i] in nodes;
      assert Cut(nodes[i].1) == nodes[i].1;
    }
  }

  /** Any truncation of an encoding decodes to a prefix of the list. */
  lemma TruncationGivesPrefix(isText: TextCheck, nodes: seq<Contact>, k: nat)
    requires k <= |Encoded(nodes)| && |nodes| <= U16_MAX
    requires forall c | c in nodes :: |c.1| <= U16_MAX && isText(c.1)
    ensures Decoded(isText, Encoded(nodes)[..k]) <= nodes
  {
    var data := Encoded(nodes)[..k];
    if k >= 2 {
      assert nodes[..|nodes|] == nodes;
      U16RoundTrip(|nodes|);
      assert data[..2] == U16Bytes(|nodes|) && data[2..] == EncodeEach(nodes)[..k - 2];
      DecodePrefix(isText, nodes, k - 2);
      DecodeByPosition(isText, |nodes|, data, 2);
      FittingContactsSurvive(isText, nodes);
    }
  }

  lemma DecodeOfEncode(isText: TextCheck, nodes: seq<Contact>)
    ensures Decoded(isText, Encoded(nodes)) == Surviving(isText, nodes[..Min(|nodes|, U16_MAX)])
  {
    var count := Min(|nodes|, U16_MAX);
    var data := Encoded(nodes);
    U16RoundTrip(count);
    assert data[..2] == U16Bytes(count) && data[2..] == EncodeEach(nodes[..count]);
    var body := EncodeEach(nodes[..count]);
    assert body[..|body|] == body;
    DecodePrefix(isText, nodes[..count], |body|);
    DecodeByPosition(isText, count, data, 2);
  }

  /** For contacts with text addresses the codec is lossless exactly within its 16-bit fields. */
  lemma LosslessExactlyWithinFields(isText: TextCheck, nodes: seq<Contact>)
    requires forall c | c in nodes :: isText(c.1)
    ensures Decoded(isText, Encoded(nodes)) == nodes <==>
      |nodes| <= U16_MAX && forall c | c in nodes :: |c.1| <= U16_MAX
  {
    DecodeOfEncode(isText, nodes);
    var r := Decoded(isText, Encoded(nodes));
    if |nodes| <= U16_MAX {
      assert nodes[..|nodes|] == nodes;
      if forall c | c in nodes :: |c.1| <= U16_MAX {
        FittingContactsSurvive(isText, nodes);
      } else {
        var i :| 0 <= i < |nodes| && |nodes[i].1| > U16_MAX;
        assert |r[i].1| <= U16_MAX;
      }
    }
  }
}
