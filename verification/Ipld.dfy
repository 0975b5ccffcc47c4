/**
 The IPLD data model. Text is held as Rust holds it, as UTF-8 bytes; a
 `BTreeMap<String, Ipld>` is the sequence of its entries in key order; a float
 is its 64-bit pattern.
 */
module IpldModel {
  import opened Basics
  import opened Cids

  datatype Ipld =
    | Null
    | Bool(b: bool)
    | Integer(i: int)
    | Float(bits: u64)
    | Text(s: Bytes)
    | Binary(bytes: Bytes)
    | List(items: seq<Ipld>)
    | Map(entries: seq<Entry>)
    | Link(cid: Cid)

  datatype Entry = Entry(key: Bytes, value: Ipld)

  // ----------------------------------------------------------------- UTF-8

  predicate Continuation(b: byte) {
    0x80 <= b <= 0xBF
  }

  /** Length of the well-formed UTF-8 sequence at the front (table 3-7 of the Unicode standard), 0 if none. */
  function ScalarLength(s: Bytes): (n: nat)
    ensures n <= |s| && n <= 4
  {
    if |s| >= 1 && s[0] < 0x80 then 1
    else if |s| >= 2 && 0xC2 <= s[0] <= 0xDF && Continuation(s[1]) then 2
    else if |s| >= 3 && 0xE0 <= s[0] <= 0xEF && Continuation(s[1]) && Continuation(s[2])
            && (s[0] == 0xE0 ==> s[1] >= 0xA0) && (s[0] == 0xED ==> s[1] <= 0x9F) then 3
    else if |s| >= 4 && 0xF0 <= s[0] <= 0xF4
            && Continuation(s[1]) && Continuation(s[2]) && Continuation(s[3])
            && (s[0] == 0xF0 ==> s[1] >= 0x90) && (s[0] == 0xF4 ==> s[1] <= 0x8F) then 4
    else 0
  }

  /** What `String::from_utf8` accepts. */
  predicate ValidUtf8(s: Bytes)
    decreases |s|
  {
    s == [] || (ScalarLength(s) > 0 && ValidUtf8(s[ScalarLength(s)..]))
  }

  lemma {:induction false} AsciiIsUtf8(s: Bytes)
    requires forall i :: 0 <= i < |s| ==> s[i] < 0x80
    ensures ValidUtf8(s)
    decreases |s|
  {
    if s != [] {
      AsciiIsUtf8(s[1..]);
    }
  }

  // ------------------------------------------------------------- key order

  /** Byte-wise lexicographic order, the `Ord` of `String`. */
  predicate Less(a: Bytes, b: Bytes) {
    b != [] && (a == [] || a[0] < b[0] || (a[0] == b[0] && Less(a[1..], b[1..])))
  }

  lemma {:induction false} LessIrreflexive(a: Bytes)
    ensures !Less(a, a)
  {
    if a != [] {
      LessIrreflexive(a[1..]);
    }
  }

  lemma {:induction false} LessTransitive(a: Bytes, b: Bytes, c: Bytes)
    requires Less(a, b) && Less(b, c)
    ensures Less(a, c)
  {
    if a != [] && a[0] == b[0] && b[0] == c[0] {
      LessTransitive(a[1..], b[1..], c[1..]);
    }
  }

  lemma {:induction false} LessTotal(a: Bytes, b: Bytes)
    ensures a == b || Less(a, b) || Less(b, a)
  {
    if a != [] && b != [] && a[0] == b[0] {
      LessTotal(a[1..], b[1..]);
      assert a == [a[0]] + a[1..] && b == [b[0]] + b[1..];
    }
  }

  /** Keys strictly increase: the iteration order of a `BTreeMap`. */
  predicate Sorted(es: seq<Entry>) {
    forall i, j :: 0 <= i < j < |es| ==> Less(es[i].key, es[j].key)
  }

  /** `BTreeMap::insert`: replaces the value of an equal key, else places the new key in order. */
  function Insert(es: seq<Entry>, k: Bytes, v: Ipld): seq<Entry> {
    if es == [] then [Entry(k, v)]
    else if es[0].key == k then [Entry(k, v)] + es[1..]
    else if Less(k, es[0].key) then [Entry(k, v)] + es
    else [es[0]] + Insert(es[1..], k, v)
  }

  /** `BTreeMap::get`. */
  function Lookup(es: seq<Entry>, k: Bytes): Option<Ipld> {
    if es == [] then None
    else if es[0].key == k then Some(es[0].value)
    else Lookup(es[1..], k)
  }

  lemma {:induction false} InsertAtEnd(es: seq<Entry>, k: Bytes, v: Ipld)
    requires forall i :: 0 <= i < |es| ==> Less(es[i].key, k)
    ensures Insert(es, k, v) == es + [Entry(k, v)]
  {
    if es != [] {
      LessIrreflexive(k);
      if Less(k, es[0].key) {
        LessTransitive(k, es[0].key, k);
      }
      InsertAtEnd(es[1..], k, v);
    }
  }

  /** Insertion keeps key order, sets the key, and leaves every other key alone. */
  lemma {:induction false} InsertSorted(es: seq<Entry>, k: Bytes, v: Ipld)
    requires Sorted(es)
    ensures Sorted(Insert(es, k, v))
    ensures forall e :: e in Insert(es, k, v) ==> e == Entry(k, v) || e in es
    ensures |Insert(es, k, v)| <= |es| + 1
    ensures forall q :: Lookup(Insert(es, k, v), q) == if q == k then Some(v) else Lookup(es, q)
  {
    hide Less;
    if es == [] {
    } else if es[0].key == k {
      assert forall i :: 0 < i < |es| ==> es[i] == es[1..][i - 1];
    } else if Less(k, es[0].key) {
      forall i | 0 < i < |es| ensures Less(k, es[i].key) {
        LessTransitive(k, es[0].key, es[i].key);
      }
      var r := [Entry(k, v)] + es;
      assert r[1..] == es;
      LookupAbsentBelow(es, k);
    } else {
      LessTotal(k, es[0].key);
      InsertSorted(es[1..], k, v);
      var t := Insert(es[1..], k, v);
      forall i | 0 <= i < |t| ensures Less(es[0].key, t[i].key) {
        assert t[i] in t;
        if t[i] != Entry(k, v) {
          assert t[i] in es[1..];
          var j :| 0 <= j < |es[1..]| && es[1..][j] == t[i];
          assert es[j + 1] == t[i];
        }
      }
      assert ([es[0]] + t)[1..] == t;
    }
  }

  lemma {:induction false} LookupAbsentBelow(es: seq<Entry>, k: Bytes)
    requires forall i :: 0 <= i < |es| ==> Less(k, es[i].key)
    ensures Lookup(es, k) == None
  {
    if es != [] {
      LessIrreflexive(k);
      LookupAbsentBelow(es[1..], k);
    }
  }

  /** A map of two keys inserted in order. */
  lemma TwoKeys(k: Bytes, v: Ipld, l: Bytes, w: Ipld)
    requires Less(k, l) && !Less(l, k) && k != l
    ensures Insert(Insert([], k, v), l, w) == [Entry(k, v), Entry(l, w)]
    ensures Lookup([Entry(k, v), Entry(l, w)], k) == Some(v)
    ensures Lookup([Entry(k, v), Entry(l, w)], l) == Some(w)
    ensures forall q :: q != k && q != l ==> Lookup([Entry(k, v), Entry(l, w)], q) == None
  {
    hide Less;
    var e := Entry(k, v);
    var f := Entry(l, w);
    assert Insert([], k, v) == [e] && [e][1..] == [];
    assert [e, f][1..] == [f] && [f][1..] == [];
    assert Insert([e], l, w) == [e] + Insert([], l, w);
    forall q ensures Lookup([e, f], q) == if q == k then Some(v) else Lookup([f], q) {
    }
    forall q ensures Lookup([f], q) == if q == l then Some(w) else None {
      assert Lookup([f][1..], q) == None;
    }
  }

  // ------------------------------------------- values the Rust type can hold

  const I128_MIN: int := -0x8000_0000_0000_0000_0000_0000_0000_0000
  const I128_MAX: int := 0x7FFF_FFFF_FFFF_FFFF_FFFF_FFFF_FFFF_FFFF

  predicate ValidText(s: Bytes) {
    |s| <= MAX_ALLOC && ValidUtf8(s)
  }

  /** The invariants that Rust's own types put on an `Ipld`. */
  predicate Representable(pf: Platform, v: Ipld)
    decreases v, 0
  {
    match v
    case Integer(i) => I128_MIN <= i <= I128_MAX
    case Text(s) => ValidText(s)
    case Binary(b) => |b| <= MAX_ALLOC
    case List(items) => pf.ListFits(|items|) && AllRepresentable(pf, items)
    case Map(es) => |es| < TWO_64 && Sorted(es) && EntriesRepresentable(pf, es)
    case _ => true
  }

  predicate AllRepresentable(pf: Platform, items: seq<Ipld>)
    decreases items, 1
  {
    forall i :: 0 <= i < |items| ==> Representable(pf, items[i])
  }

  predicate EntriesRepresentable(pf: Platform, es: seq<Entry>)
    decreases es, 1
  {
    forall i :: 0 <= i < |es| ==> ValidText(es[i].key) && Representable(pf, es[i].value)
  }
}
