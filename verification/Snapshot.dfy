/** Snapshot files: the streaming writer, the verifying loader, and the two against each other. */
module Snapshots {
  import opened Bytes
  import Crc32c

  const HEADER_LEN: nat := 32
  const FOOTER_LEN: nat := 20
  const ITEM_HEADER_LEN: nat := 14
  const FORMAT_VERSION: nat := 1
  const MAX_KEY_LEN: nat := 0xffff
  const MAX_VAL_LEN: nat := 0x100_0000
  const CRC_CHUNK: nat := 0x10_0000

  /** "KVSNAP01" and "KVSNAPFT". */
  const HEADER_MAGIC: Bytes := [75, 86, 83, 78, 65, 80, 48, 49]
  const FOOTER_MAGIC: Bytes := [75, 86, 83, 78, 65, 80, 70, 84]

  datatype Item = Item(key: Bytes, value: Bytes, expireAt: nat)

  predicate Fits(e: Item) {
    |e.key| <= MAX_KEY_LEN && |e.value| <= MAX_VAL_LEN && e.expireAt < U64
  }

  predicate AllFit(es: seq<Item>) {
    forall i :: 0 <= i < |es| ==> Fits(es[i])
  }

  datatype Meta = Meta(createdAt: nat, lsn: nat) {
    predicate Fits() {
      createdAt < U64 && lsn < U64
    }
  }

  // The layout

  function Head(m: Meta, reserved: Bytes): (s: Bytes)
    ensures |s| == 28 + |reserved|
  {
    HEADER_MAGIC + LE(FORMAT_VERSION, 4) + LE(m.createdAt, 8) + LE(m.lsn, 8) + reserved
  }

  function ItemHead(e: Item): (s: Bytes)
    ensures |s| == ITEM_HEADER_LEN
  {
    LE(|e.key|, 2) + LE(|e.value|, 4) + LE(e.expireAt, 8)
  }

  function EncodeItem(e: Item): (s: Bytes)
    ensures |s| == ITEM_HEADER_LEN + |e.key| + |e.value|
  {
    ItemHead(e) + e.key + e.value
  }

  function EncodeItems(es: seq<Item>): (s: Bytes) {
    if es == [] then [] else EncodeItem(es[0]) + EncodeItems(es[1..])
  }

  /** A file's checksum covers everything in front of it, the footer's magic and count included. */
  function Sealed(covered: Bytes): (s: Bytes)
    ensures |s| == |covered| + 4
  {
    covered + LE(Crc32c.Checksum(covered), 4)
  }

  function Covered(m: Meta, reserved: Bytes, es: seq<Item>): (s: Bytes) {
    Head(m, reserved) + EncodeItems(es) + (FOOTER_MAGIC + LE(|es|, 8))
  }

  function File(m: Meta, reserved: Bytes, es: seq<Item>): (s: Bytes) {
    Sealed(Covered(m, reserved, es))
  }

  lemma {:induction false} EncodeItemsSnoc(es: seq<Item>, e: Item)
    ensures EncodeItems(es + [e]) == EncodeItems(es) + EncodeItem(e)
  {
    if es == [] {
      assert [] + [e] == [e];
    } else {
      assert (es + [e])[1..] == es[1..] + [e];
      EncodeItemsSnoc(es[1..], e);
    }
  }

  // Writing

  class Writer {
    var file: Bytes
    var crc: nat
    var count: nat
    var written: nat
    var closed: bool
    const meta: Meta
    ghost var items: seq<Item>

    ghost predicate Valid()
      reads this
    {
      && file == Head(meta, [0, 0, 0, 0]) + EncodeItems(items)
      && crc == Crc32c.Checksum(file) && written == |file| && count == |items| && AllFit(items)
    }

    constructor (m: Meta)
      ensures Valid() && !closed && items == [] && meta == m
    {
      var head := Head(m, [0, 0, 0, 0]);
      meta, file, crc, count, written, closed, items := m, head, Crc32c.Update(0, head), 0, |head|, false, [];
      new;
      assert head + EncodeItems([]) == head;
    }

    method Write(b: Bytes)
      requires crc == Crc32c.Checksum(file) && written == |file|
      modifies `file, `crc, `written
      ensures file == old(file) + b && crc == Crc32c.Checksum(file) && written == |file|
    {
      hide Crc32c.Update;
      Crc32c.UpdateConcat(0, file, b);
      file, crc, written := file + b, Crc32c.Update(crc, b), written + |b|;
    }

    method Add(e: Item) returns (ok: bool)
      requires Valid() && !closed && e.expireAt < U64
      modifies this
      ensures Valid() && !closed && ok == Fits(e) && items == old(items) + (if ok then [e] else [])
    {
      hide Crc32c.Checksum, EncodeItem, EncodeItems, Head;
      if |e.key| > MAX_KEY_LEN || |e.value| > MAX_VAL_LEN {
        assert items + [] == items;
        return false;
      }
      EncodeItemsSnoc(items, e);
      assert file + EncodeItem(e) == Head(meta, [0, 0, 0, 0]) + (EncodeItems(items) + EncodeItem(e));
      Write(EncodeItem(e));
      count, items := count + 1, items + [e];
      ok := true;
    }

    /** The footer, with the checksum carried on from what was streamed. */
    method Commit() returns (ok: bool)
      requires Valid()
      modifies this
      ensures ok == !old(closed) && closed && items == old(items)
      ensures file == if ok then File(meta, [0, 0, 0, 0], items) else old(file)
    {
      hide Crc32c.Update, Head, EncodeItems, LE;
      if closed {
        return false;
      }
      closed := true;
      var foot := FOOTER_MAGIC + LE(count, 8);
      Crc32c.UpdateConcat(0, file, foot);
      assert file + foot == Covered(meta, [0, 0, 0, 0], items);
      file := file + (foot + LE(Crc32c.Update(crc, foot), 4));
      ok := true;
    }
  }

  // Loading

  datatype Error = Incomplete | BadFooter | BadCRC | BadMagic | BadVersion | Implausible | EntryCount

  datatype Outcome = Good(meta: Meta) | Bad(error: Error)

  /** What a load reports, and what it has handed to the caller by then. */
  datatype Loaded = Loaded(outcome: Outcome, out: seq<Item>)

  /** The entries of a body, up to the first one that cannot be. */
  datatype Body = Whole(items: seq<Item>) | Broken(items: seq<Item>, error: Error)

  datatype Next = One(item: Item, len: nat) | Stop(error: Error)

  function NextItem(b: Bytes): (r: Next)
    ensures r.One? ==> 0 < r.len <= |b|
  {
    if |b| < ITEM_HEADER_LEN then Stop(Incomplete)
    else
      var k, v := FromLE(b[..2]), FromLE(b[2..6]);
      if v > MAX_VAL_LEN || k > MAX_KEY_LEN then Stop(Implausible)
      else if ITEM_HEADER_LEN + k + v > |b| then Stop(Incomplete)
      else One(Item(b[14..14 + k], b[14 + k..14 + k + v], FromLE(b[6..14])), ITEM_HEADER_LEN + k + v)
  }

  function ReadBody(b: Bytes): (r: Body)
    decreases |b|
  {
    if b == [] then Whole([])
    else match NextItem(b)
      case Stop(error) => Broken([], error)
      case One(e, n) => var rest := ReadBody(b[n..]); rest.(items := [e] + rest.items)
  }

  function LoadOf(f: Bytes): (r: Loaded) {
    var n := |f|;
    if n < HEADER_LEN + FOOTER_LEN then Loaded(Bad(Incomplete), [])
    else if f[n - 20..n - 12] != FOOTER_MAGIC then Loaded(Bad(BadFooter), [])
    else if Crc32c.Checksum(f[..n - 4]) != FromLE(f[n - 4..]) then Loaded(Bad(BadCRC), [])
    else if f[..8] != HEADER_MAGIC then Loaded(Bad(BadMagic), [])
    else if FromLE(f[8..12]) != FORMAT_VERSION then Loaded(Bad(BadVersion), [])
    else
      var body := ReadBody(f[32..n - 20]);
      if body.Broken? then Loaded(Bad(body.error), body.items)
      else if |body.items| != FromLE(f[n - 12..n - 4]) then Loaded(Bad(EntryCount), body.items)
      else Loaded(Good(Meta(FromLE(f[12..20]), FromLE(f[20..28]))), body.items)
  }

  /** The checksum of the first n bytes, a chunk at a time. */
  method CrcRange(f: Bytes, n: nat) returns (crc: nat)
    requires n <= |f|
    ensures crc == Crc32c.Checksum(f[..n])
  {
    hide Crc32c.Update, Crc32c.Checksum;
    crc := 0;
    ChecksumNone();
    var done := 0;
    assert f[..0] == [];
    while done < n
      invariant done <= n && crc == Crc32c.Checksum(f[..done])
    {
      var take := if n - done < CRC_CHUNK then n - done else CRC_CHUNK;
      ChecksumMore(f[..done], f[done..done + take]);
      assert f[..done] + f[done..done + take] == f[..done + take];
      crc := Crc32c.Update(crc, f[done..done + take]);
      done := done + take;
    }
  }

  lemma ChecksumNone()
    ensures Crc32c.Checksum([]) == 0
  {
    Pow2Values();
    Crc32c.NumOfBits(0, 32);
    var x := Crc32c.Bits(0, 32);
    assert Crc32c.Not(Crc32c.Not(x)) == x;
  }

  lemma ChecksumMore(s: Bytes, t: Bytes)
    ensures Crc32c.Update(Crc32c.Checksum(s), t) == Crc32c.Checksum(s + t)
  {
    Crc32c.UpdateConcat(0, s, t);
  }

  /** One pass to verify, one to read. Nothing is handed out before the checksum is right. */
  method Load(f: Bytes) returns (r: Loaded)
    ensures r == LoadOf(f)
  {
    hide Crc32c.Checksum, FromLE;
    var n := |f|;
    if n < HEADER_LEN + FOOTER_LEN {
      return Loaded(Bad(Incomplete), []);
    }
    var footer := f[n - 20..];
    if footer[..8] != FOOTER_MAGIC {
      return Loaded(Bad(BadFooter), []);
    }
    assert footer[8..16] == f[n - 12..n - 4] && footer[16..20] == f[n - 4..];
    var count, want := FromLE(footer[8..16]), FromLE(footer[16..20]);
    var crc := CrcRange(f, n - 4);
    if crc != want {
      return Loaded(Bad(BadCRC), []);
    }
    if f[..8] != HEADER_MAGIC {
      return Loaded(Bad(BadMagic), []);
    }
    if FromLE(f[8..12]) != FORMAT_VERSION {
      return Loaded(Bad(BadVersion), []);
    }
    var body := ReadItems(f[32..n - 20]);
    if body.Broken? {
      return Loaded(Bad(body.error), body.items);
    }
    if |body.items| != count {
      return Loaded(Bad(EntryCount), body.items);
    }
    r := Loaded(Good(Meta(FromLE(f[12..20]), FromLE(f[20..28]))), body.items);
  }

  ghost function Onto(items: seq<Item>, rest: Body): (r: Body) {
    rest.(items := items + rest.items)
  }

  lemma ReadBodyStep(b: Bytes)
    requires b != []
    ensures NextItem(b).Stop? ==> ReadBody(b) == Broken([], NextItem(b).error)
    ensures NextItem(b).One? ==> ReadBody(b) == Onto([NextItem(b).item], ReadBody(b[NextItem(b).len..]))
  {
    hide FromLE;
  }

  lemma OntoBoth(a: seq<Item>, b: seq<Item>, rest: Body)
    ensures Onto(a, Onto(b, rest)) == Onto(a + b, rest)
  {
    assert a + (b + rest.items) == (a + b) + rest.items;
  }

  lemma ReadOn(b: Bytes, consumed: nat, items: seq<Item>)
    requires consumed < |b| && ReadBody(b) == Onto(items, ReadBody(b[consumed..]))
    ensures var next := NextItem(b[consumed..]);
            && (next.Stop? ==> ReadBody(b) == Broken(items, next.error))
            && (next.One? ==>
                  && consumed + next.len <= |b|
                  && ReadBody(b) == Onto(items + [next.item], ReadBody(b[consumed + next.len..])))
  {
    hide NextItem, ReadBody, Onto;
    var here := b[consumed..];
    var next := NextItem(here);
    ReadBodyStep(here);
    if next.One? {
      TailOfTail(b, consumed, next.len);
      OntoBoth(items, [next.item], ReadBody(here[next.len..]));
    } else {
      OntoBroken(items, next.error);
    }
  }

  lemma OntoBroken(items: seq<Item>, e: Error)
    ensures Onto(items, Broken([], e)) == Broken(items, e)
  {
    assert items + [] == items;
  }

  lemma TailOfTail(b: Bytes, i: nat, j: nat)
    requires i + j <= |b|
    ensures b[i..][j..] == b[i + j..]
  {
  }

  method ReadItems(b: Bytes) returns (r: Body)
    ensures r == ReadBody(b)
  {
    hide NextItem, ReadBody;
    var consumed, items := 0, [];
    assert b[0..] == b;
    while consumed < |b|
      invariant consumed <= |b| && ReadBody(b) == Onto(items, ReadBody(b[consumed..]))
    {
      ReadOn(b, consumed, items);
      var next := ReadItem(b[consumed..]);
      if next.Stop? {
        return Broken(items, next.error);
      }
      items := items + [next.item];
      consumed := consumed + next.len;
    }
    NoItems();
    assert b[|b|..] == [];
    r := Whole(items);
  }

  /** One turn of the loop, on what is left of the body. */
  method ReadItem(here: Bytes) returns (r: Next)
    ensures r == NextItem(here)
  {
    if |here| < ITEM_HEADER_LEN {
      return Stop(Incomplete);
    }
    var k, v, expireAt := FromLE(here[..2]), FromLE(here[2..6]), FromLE(here[6..14]);
    if v > MAX_VAL_LEN || k > MAX_KEY_LEN {
      return Stop(Implausible);
    }
    if ITEM_HEADER_LEN + k + v > |here| {
      return Stop(Incomplete);
    }
    var buf := here[ITEM_HEADER_LEN..ITEM_HEADER_LEN + k + v];
    assert buf[..k] == here[14..14 + k] && buf[k..] == here[14 + k..14 + k + v];
    r := One(Item(buf[..k], buf[k..], expireAt), ITEM_HEADER_LEN + k + v);
  }

  // Reading inverts writing

  /** Where everything is in an entry. */
  lemma ItemParts(e: Item)
    ensures var b := EncodeItem(e);
            && b[..2] == LE(|e.key|, 2) && b[2..6] == LE(|e.value|, 4) && b[6..14] == LE(e.expireAt, 8)
            && b[14..14 + |e.key|] == e.key && b[14 + |e.key|..] == e.value
  {
    hide LE;
  }

  lemma NextOf(e: Item, tail: Bytes)
    requires Fits(e)
    ensures var b := EncodeItem(e) + tail; NextItem(b) == One(e, |EncodeItem(e)|) && b[|EncodeItem(e)|..] == tail
  {
    hide LE, FromLE;
    var b := EncodeItem(e) + tail;
    LEFits(|e.key|, 2);
    LEFits(|e.value|, 4);
    LEFits(e.expireAt, 8);
    assert b[..2] == LE(|e.key|, 2) && b[2..6] == LE(|e.value|, 4) && b[6..14] == LE(e.expireAt, 8);
    assert b[14..14 + |e.key|] == e.key && b[14 + |e.key|..14 + |e.key| + |e.value|] == e.value;
  }

  lemma NextBack(b: Bytes)
    requires NextItem(b).One?
    ensures var n := NextItem(b); EncodeItem(n.item) == b[..n.len] && Fits(n.item)
  {
    hide LE, FromLE;
    FromLEFits(b[..2]);
    FromLEFits(b[2..6]);
    FromLEFits(b[6..14]);
  }

  lemma ConsItems(e: Item, es: seq<Item>)
    requires Fits(e) && AllFit(es)
    ensures EncodeItems([e] + es) == EncodeItem(e) + EncodeItems(es) && AllFit([e] + es)
  {
    assert ([e] + es)[1..] == es;
  }

  lemma {:induction false} ReadBodyOf(es: seq<Item>)
    requires AllFit(es)
    ensures ReadBody(EncodeItems(es)) == Whole(es)
  {
    hide ReadBody, NextItem, EncodeItem, EncodeItems, Fits, Onto;
    if es == [] {
      NoItems();
    } else {
      var rest := EncodeItems(es[1..]);
      assert es == [es[0]] + es[1..];
      ConsItems(es[0], es[1..]);
      NextOf(es[0], rest);
      ReadBodyStep(EncodeItem(es[0]) + rest);
      ReadBodyOf(es[1..]);
      OntoWhole([es[0]], es[1..]);
    }
  }

  lemma OntoWhole(a: seq<Item>, b: seq<Item>)
    ensures Onto(a, Whole(b)) == Whole(a + b)
  {
  }

  lemma {:induction false} BodyBack(b: Bytes)
    requires ReadBody(b).Whole?
    ensures EncodeItems(ReadBody(b).items) == b && AllFit(ReadBody(b).items)
    decreases |b|
  {
    hide ReadBody, NextItem, EncodeItem, EncodeItems, Fits, AllFit;
    if b == [] {
      NoItems();
    } else {
      ReadBodyStep(b);
      var next := NextItem(b);
      NextBack(b);
      BodyBack(b[next.len..]);
      ConsItems(next.item, ReadBody(b[next.len..]).items);
      assert b == b[..next.len] + b[next.len..];
    }
  }

  lemma NoItems()
    ensures ReadBody([]) == Whole([]) && EncodeItems([]) == [] && AllFit([])
  {
  }

  predicate Storable(m: Meta, reserved: Bytes, es: seq<Item>) {
    m.Fits() && |reserved| == 4 && AllFit(es) && |es| < U64
  }

  lemma FileParts(m: Meta, reserved: Bytes, es: seq<Item>)
    requires Storable(m, reserved, es)
    ensures var f := File(m, reserved, es); var n := |f|;
            && n >= HEADER_LEN + FOOTER_LEN && f[..n - 4] == Covered(m, reserved, es)
            && f[n - 20..n - 12] == FOOTER_MAGIC && f[n - 4..] == LE(Crc32c.Checksum(f[..n - 4]), 4)
            && f[..8] == HEADER_MAGIC && f[8..12] == LE(FORMAT_VERSION, 4)
            && f[12..20] == LE(m.createdAt, 8) && f[20..28] == LE(m.lsn, 8) && f[28..32] == reserved
            && f[32..n - 20] == EncodeItems(es) && f[n - 12..n - 4] == LE(|es|, 8)
  {
    hide LE, Crc32c.Checksum, EncodeItems;
  }

  /** Loading a written file gives back what was written. */
  lemma LoadInvertsFile(m: Meta, reserved: Bytes, es: seq<Item>)
    requires Storable(m, reserved, es)
    ensures LoadOf(File(m, reserved, es)) == Loaded(Good(m), es)
  {
    hide LE, FromLE, Crc32c.Checksum, EncodeItems, ReadBody, File;
    FileParts(m, reserved, es);
    ReadBodyOf(es);
    LEFits(FORMAT_VERSION, 4);
    LEFits(m.createdAt, 8);
    LEFits(m.lsn, 8);
    LEFits(|es|, 8);
    LEFits(Crc32c.Checksum(Covered(m, reserved, es)), 4);
  }

  /** Loading accepts nothing else: the file is the writer's own, up to the reserved bytes,
      which are not looked at. */
  lemma GoodIsFile(f: Bytes)
    requires LoadOf(f).outcome.Good?
    ensures var m, es := LoadOf(f).outcome.meta, LoadOf(f).out;
            Storable(m, f[28..32], es) && f == File(m, f[28..32], es)
  {
    hide LE, FromLE, Crc32c.Checksum, EncodeItems, ReadBody;
    var n := |f|;
    var m, es := LoadOf(f).outcome.meta, LoadOf(f).out;
    BodyBack(f[32..n - 20]);
    FromLEFits(f[8..12]);
    FromLEFits(f[12..20]);
    FromLEFits(f[20..28]);
    FromLEFits(f[n - 12..n - 4]);
    FromLEFits(f[n - 4..]);
    assert f[..32] == Head(m, f[28..32]);
    assert f[n - 20..n - 4] == FOOTER_MAGIC + LE(|es|, 8);
    assert f[..n - 4] == f[..32] + f[32..n - 20] + f[n - 20..n - 4];
    assert f == f[..n - 4] + f[n - 4..];
  }

  /** A change to at most four adjacent bytes, wherever in the file, is noticed before anything is
      handed out. */
  lemma DamageRefused(before: Bytes, s: Bytes, t: Bytes, after: Bytes)
    requires LoadOf(before + s + after).outcome.Good? && |s| == |t| <= 4 && s != t
    ensures LoadOf(before + t + after).outcome.Bad? && LoadOf(before + t + after).out == []
  {
    hide FromLE, Crc32c.Checksum, ReadBody;
    assert Crc32c.Sealed(before + s + after);
    Crc32c.BrokenSeal(before, s, t, after);
  }

  // Several files

  lemma {:induction false} BodyFits(b: Bytes)
    ensures AllFit(ReadBody(b).items)
    decreases |b|
  {
    hide NextItem, Fits;
    if b != [] && NextItem(b).One? {
      NextBack(b);
      BodyFits(b[NextItem(b).len..]);
    }
  }

  /** Whatever a load hands out, accepted or not, respects the length limits. */
  lemma LoadFits(f: Bytes)
    ensures AllFit(LoadOf(f).out)
  {
    hide ReadBody, Crc32c.Checksum, FromLE;
    if |f| >= HEADER_LEN + FOOTER_LEN {
      BodyFits(f[32..|f| - 20]);
    }
  }

  datatype Choice = Chosen(index: nat, meta: Meta) | NoSnapshot | AllBad
}
