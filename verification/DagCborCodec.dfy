/**
 The DAG-CBOR codec in the library's own form: an encoder that appends to a
 growing buffer and a decoder that advances a reader, both recursive with
 loops over list items and map entries.
 */
module DagCborCodec {
  import opened Basics
  import opened Cids
  import opened IpldModel
  import opened DagCbor

  class Buffer {
    var data: Bytes

    constructor ()
      ensures data == []
    {
      data := [];
    }

    method Extend(bytes: Bytes)
      modifies this
      ensures data == old(data) + bytes
    {
      data := data + bytes;
    }
  }

  lemma EncodeItemsSnoc(items: seq<Ipld>, i: nat)
    requires i < |items|
    ensures EncodeItems(items[..i + 1]) == EncodeItems(items[..i]) + Encode(items[i])
    decreases i
  {
    hide Encode;
    if i == 0 {
      assert items[..1] == [items[0]];
      assert EncodeItems(items[..1]) == Encode(items[0]) + EncodeItems([]);
    } else {
      var a, b := items[..i + 1], items[..i];
      assert a[1..] == items[1..][..i] && b[1..] == items[1..][..i - 1];
      EncodeItemsSnoc(items[1..], i - 1);
    }
  }

  lemma EncodeEntriesSnoc(es: seq<Entry>, i: nat)
    requires i < |es|
    ensures EncodeEntries(es[..i + 1]) == EncodeEntries(es[..i]) + EncodeText(es[i].key) + Encode(es[i].value)
    decreases i
  {
    hide Encode, EncodeText;
    if i == 0 {
      assert es[..1] == [es[0]];
      assert EncodeEntries(es[..1]) == EncodeText(es[0].key) + (Encode(es[0].value) + EncodeEntries([]));
    } else {
      var a, b := es[..i + 1], es[..i];
      assert a[1..] == es[1..][..i] && b[1..] == es[1..][..i - 1];
      EncodeEntriesSnoc(es[1..], i - 1);
    }
  }

  /** `encode_dag_cbor`. */
  method EncodeDagCbor(v: Ipld, buffer: Buffer)
    modifies buffer
    ensures buffer.data == old(buffer.data) + Encode(v)
    decreases v
  {
    hide Head, Be, EncodeItems, EncodeEntries, CidBytes, EncodeText;
    match v {
      case Null => buffer.Extend([0xF6]);
      case Bool(b) => buffer.Extend([if b then 0xF5 else 0xF4]);
      case Integer(i) =>
        if i >= 0 {
          buffer.Extend(Head(0, Truncate64(i)));
        } else {
          buffer.Extend(Head(1, Truncate64(-1 - i)));
        }
      case Float(bits) =>
        buffer.Extend([0xFB]);
        buffer.Extend(Be(bits, 8));
      case Text(s) => EncodeString(s, buffer);
      case Binary(b) =>
        buffer.Extend(Head(2, Truncate64(|b|)));
        buffer.Extend(b);
      case List(items) => EncodeList(items, v, buffer);
      case Map(es) => EncodeMap(es, v, buffer);
      case Link(cid) =>
        buffer.Extend(Head(6, CID_TAG));
        var prefixed := [0x00];
        prefixed := prefixed + CidBytes(cid);
        buffer.Extend(Head(2, Truncate64(|prefixed|)));
        buffer.Extend(prefixed);
    }
  }

  method EncodeString(s: Bytes, buffer: Buffer)
    modifies buffer
    ensures buffer.data == old(buffer.data) + EncodeText(s)
  {
    buffer.Extend(Head(3, Truncate64(|s|)));
    buffer.Extend(s);
  }

  method EncodeList(items: seq<Ipld>, ghost whole: Ipld, buffer: Buffer)
    requires whole == List(items)
    modifies buffer
    ensures buffer.data == old(buffer.data) + (Head(4, Truncate64(|items|)) + EncodeItems(items))
    decreases whole, 0
  {
    hide Encode, EncodeItems;
    assert EncodeItems(items[..0]) == [] by { NoItems(); }
    buffer.Extend(Head(4, Truncate64(|items|)));
    for i := 0 to |items|
      invariant buffer.data == old(buffer.data) + (Head(4, Truncate64(|items|)) + EncodeItems(items[..i]))
    {
      EncodeDagCbor(items[i], buffer);
      EncodeItemsSnoc(items, i);
    }
    assert items[..|items|] == items;
  }

  lemma NoItems()
    ensures EncodeItems([]) == []
  {
  }

  lemma NoEntriesEncoded()
    ensures EncodeEntries([]) == []
  {
  }

  method EncodeMap(es: seq<Entry>, ghost whole: Ipld, buffer: Buffer)
    requires whole == Map(es)
    modifies buffer
    ensures buffer.data == old(buffer.data) + (Head(5, Truncate64(|es|)) + EncodeEntries(es))
    decreases whole, 0
  {
    hide Encode, EncodeEntries, EncodeText;
    assert EncodeEntries(es[..0]) == [] by { NoEntriesEncoded(); }
    buffer.Extend(Head(5, Truncate64(|es|)));
    for i := 0 to |es|
      invariant buffer.data == old(buffer.data) + (Head(5, Truncate64(|es|)) + EncodeEntries(es[..i]))
    {
      EncodeString(es[i].key, buffer);
      EncodeDagCbor(es[i].value, buffer);
      EncodeEntriesSnoc(es, i);
    }
    assert es[..|es|] == es;
  }

  // --------------------------------------------------------------- decoder

  class Reader {
    var rest: Bytes

    constructor (bytes: Bytes)
      ensures rest == bytes
    {
      rest := bytes;
    }

    /** `read_exact`: a short read is an error and what it consumed is not observed. */
    method ReadExact(n: nat) returns (r: Result<Bytes>)
      modifies this
      ensures n <= |old(rest)| ==> r == Ok(old(rest)[..n]) && rest == old(rest)[n..]
      ensures n > |old(rest)| ==> r.Err?
    {
      if n <= |rest| {
        r := Ok(rest[..n]);
        rest := rest[n..];
      } else {
        r := Err(Io);
      }
    }
  }

  /** A stateful read agrees with a parser: same value and same remaining input, or both fail. */
  ghost predicate Agrees<T>(r: Result<T>, rest: Bytes, p: Parse<T>) {
    match p
    case Fails(Bad) => r == Err(Deserialization)
    case Fails(Crash) => r == Err(Panic)
    case Got(v, rest') => r == Ok(v) && rest == rest'
  }

  /** `decode_cbor_uint`. */
  method DecodeUint(info: nat, reader: Reader) returns (r: Result<u64>)
    requires info < 32
    modifies reader
    ensures Agrees(r, reader.rest, ReadArgument(info, old(reader.rest)))
  {
    if info < 24 {
      return Ok(info);
    }
    if info > 27 {
      return Err(Deserialization);
    }
    var width := if info == 24 then 1 else if info == 25 then 2 else if info == 26 then 4 else 8;
    var buf := reader.ReadExact(width);
    if buf.Err? {
      return Err(Deserialization);
    }
    Powers();
    FromBeBound(buf.value);
    r := Ok(FromBe(buf.value));
  }

  /** `decode_dag_cbor`. */
  method DecodeDagCbor(pf: Platform, reader: Reader) returns (r: Result<Ipld>)
    modifies reader
    ensures Agrees(r, reader.rest, Decode(pf, old(reader.rest)))
    decreases |reader.rest|, 1
  {
    hide DecodeBody;
    var first := reader.ReadExact(1);
    if first.Err? {
      return Err(Deserialization);
    }
    var major, info := first.value[0] / 32, first.value[0] % 32;
    if major == 7 {
      r := DecodeSimpleValue(pf, info, reader);
    } else {
      var n := DecodeUint(info, reader);
      if n.Err? {
        return Err(n.error);
      }
      r := DecodeContent(pf, major, n.value, reader);
    }
  }

  method DecodeSimpleValue(pf: Platform, info: nat, reader: Reader) returns (r: Result<Ipld>)
    requires info < 32
    modifies reader
    ensures Agrees(r, reader.rest, DecodeSimple(pf, info, old(reader.rest)))
  {
    if info == 20 {
      r := Ok(Bool(false));
    } else if info == 21 {
      r := Ok(Bool(true));
    } else if info == 22 {
      r := Ok(Null);
    } else if 25 <= info <= 27 {
      var n := DecodeUint(info, reader);
      if n.Err? {
        return Err(n.error);
      }
      r := Ok(Float(if info == 25 then pf.half(n.value)
                    else if info == 26 then pf.single(n.value) else n.value));
    } else {
      r := Err(Deserialization);
    }
  }

  method DecodeContent(pf: Platform, major: nat, n: u64, reader: Reader) returns (r: Result<Ipld>)
    requires major < 7
    modifies reader
    ensures Agrees(r, reader.rest, DecodeBody(pf, major, n, old(reader.rest)))
    decreases |reader.rest|, 3
  {
    hide Decode, DecodeItems, DecodeEntries;
    if major == 0 {
      r := Ok(Integer(n));
    } else if major == 1 {
      r := Ok(Integer(-1 - n));
    } else if major == 2 || major == 3 {
      if n > MAX_ALLOC {
        return Err(Panic);
      }
      var bytes := reader.ReadExact(n);
      if bytes.Err? {
        return Err(Deserialization);
      }
      if major == 2 {
        r := Ok(Binary(bytes.value));
      } else if ValidUtf8(bytes.value) {
        r := Ok(Text(bytes.value));
      } else {
        r := Err(Deserialization);
      }
    } else if major == 4 {
      if !pf.ListFits(n) {
        return Err(Panic);
      }
      var list := DecodeList(pf, n, reader);
      r := if list.Err? then Err(list.error) else Ok(List(list.value));
    } else if major == 5 {
      var es := DecodeMap(pf, n, reader);
      r := if es.Err? then Err(es.error) else Ok(Map(es.value));
    } else if n == CID_TAG {
      var content := DecodeDagCbor(pf, reader);
      if content.Err? {
        return content;
      }
      if !content.value.Binary? {
        return Err(Deserialization);
      }
      var bytes := content.value.bytes;
      if bytes != [] && bytes[0] == 0x00 {
        bytes := bytes[1..];
      }
      var cid := ReadCid(bytes);
      r := if cid.Fails? then Err(Deserialization) else Ok(Link(cid.value));
    } else {
      r := DecodeDagCbor(pf, reader);
    }
  }

  method DecodeList(pf: Platform, n: u64, reader: Reader) returns (r: Result<seq<Ipld>>)
    modifies reader
    ensures Agrees(r, reader.rest, DecodeItems(pf, n, old(reader.rest)))
    decreases |reader.rest|, 2
  {
    hide Decode;
    var list: seq<Ipld> := [];
    var i := 0;
    PrependNone(DecodeItems(pf, n, reader.rest));
    while i < n
      invariant 0 <= i <= n
      invariant |reader.rest| <= |old(reader.rest)|
      invariant DecodeItems(pf, n, old(reader.rest))
             == Prepend(list, DecodeItems(pf, n - i, reader.rest))
    {
      ghost var before := reader.rest;
      var item := DecodeDagCbor(pf, reader);
      if item.Err? {
        return Err(item.error);
      }
      PrependOne(list, item.value, DecodeItems(pf, n - i - 1, reader.rest));
      list := list + [item.value];
      i := i + 1;
    }
    assert list + [] == list;
    r := Ok(list);
  }

  ghost function Prepend<T>(vs: seq<T>, p: Parse<seq<T>>): Parse<seq<T>> {
    match p
    case Fails(why) => Fails(why)
    case Got(ws, rest) => Got(vs + ws, rest)
  }

  lemma PrependNone<T>(p: Parse<seq<T>>)
    ensures Prepend([], p) == p
  {
    if p.Got? {
      assert [] + p.value == p.value;
    }
  }

  lemma PrependOne<T>(vs: seq<T>, v: T, p: Parse<seq<T>>)
    ensures Prepend(vs, Prepend([v], p)) == Prepend(vs + [v], p)
  {
    if p.Got? {
      assert vs + ([v] + p.value) == vs + [v] + p.value;
    }
  }

  method DecodeMap(pf: Platform, n: u64, reader: Reader) returns (r: Result<seq<Entry>>)
    modifies reader
    ensures Agrees(r, reader.rest, DecodeEntries(pf, n, [], old(reader.rest)))
    decreases |reader.rest|, 2
  {
    hide Decode, Insert;
    var es: seq<Entry> := [];
    var i := 0;
    while i < n
      invariant 0 <= i <= n
      invariant |reader.rest| <= |old(reader.rest)|
      invariant DecodeEntries(pf, n, [], old(reader.rest)) == DecodeEntries(pf, n - i, es, reader.rest)
    {
      var key := DecodeDagCbor(pf, reader);
      if key.Err? {
        return Err(key.error);
      }
      if !key.value.Text? {
        return Err(Deserialization);
      }
      var value := DecodeDagCbor(pf, reader);
      if value.Err? {
        return Err(value.error);
      }
      es := Insert(es, key.value.s, value.value);
      i := i + 1;
    }
    r := Ok(es);
  }
}
