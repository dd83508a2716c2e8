/** The table of contents: a list of entries written as magic bytes
    01 02 03 04, one length-prefixed record per entry, and a four-byte zero
    terminator. */
module Toc {
  import opened Bytes
  import opened Results
  import E = TocEntry

  const Magic: seq<byte> := [0x01, 0x02, 0x03, 0x04]
  const Terminator: seq<byte> := [0x00, 0x00, 0x00, 0x00]

  /** What `Deserialize` does: return `true` or `false`, or throw. */
  datatype Outcome = Returned(b: bool) | Threw

  /** Every entry's record length fits a C# `int`. */
  predicate AllSerializable(es: seq<E.TocEntry>) {
    forall i :: 0 <= i < |es| ==> E.Serializable(es[i])
  }

  /** One entry as `Serialize` writes it: its record length, then the record. */
  function Record(e: E.TocEntry): (r: seq<byte>)
    requires E.Serializable(e)
    ensures |r| == 16 + |e.name|
  {
    LE32(|E.Serialize(e)|) + E.Serialize(e)
  }

  /** All records, in list order. */
  function Records(es: seq<E.TocEntry>): seq<byte>
    requires AllSerializable(es)
  {
    if es == [] then [] else Record(es[0]) + Records(es[1..])
  }

  /** The whole serialized table. */
  function TocBytes(es: seq<E.TocEntry>): seq<byte>
    requires AllSerializable(es)
  {
    Magic + Records(es) + Terminator
  }

  /** The loop of `Deserialize` on the bytes `rest` from cursor `ix` on:
      the entries it adds, in order, and how it ends. A zero length prefix
      ends it with `true`; so does an item that would run past the buffer.
      Running out of bytes for a length prefix, a negative length, a cursor
      sum that overflows a C# `int`, or an item `TocEntry.Create` cannot read
      all throw, after the entries already added. */
  function Parse(rest: seq<byte>, ix: nat): (r: (seq<E.TocEntry>, Outcome))
    requires ix + |rest| <= E.IntMax
    decreases |rest|
  {
    if 4 > |rest| then ([], Threw)
    else
      var count := ReadI32(rest, 0);
      if count == 0 then ([], Returned(true))
      else if count < 0 then ([], Threw)
      else if ix + 4 + count > E.IntMax then ([], Threw)
      else if 4 + count > |rest| then ([], Returned(true))
      else
        match E.Create(rest[4..4 + count])
        case None => ([], Threw)
        case Some(e) =>
          var next := Parse(rest[4 + count..], ix + 4 + count);
          ([e] + next.0, next.1)
  }

  /** All of `Deserialize` on a buffer: the magic check, then the loop from 4.
      A buffer shorter than the byte being compared throws. */
  function Deserialized(toc: seq<byte>): (r: (seq<E.TocEntry>, Outcome))
    requires |toc| <= E.IntMax
    ensures (exists i :: 0 <= i < 4 && i < |toc| && toc[i] != Magic[i] && toc[..i] == Magic[..i])
      ==> r == ([], Returned(false))
  {
    if |toc| < 1 then ([], Threw)
    else if toc[0] != Magic[0] then ([], Returned(false))
    else if |toc| < 2 then ([], Threw)
    else if toc[1] != Magic[1] then ([], Returned(false))
    else if |toc| < 3 then ([], Threw)
    else if toc[2] != Magic[2] then ([], Returned(false))
    else if |toc| < 4 then ([], Threw)
    else if toc[3] != Magic[3] then ([], Returned(false))
    else Parse(toc[4..], 4)
  }

  /** Appending an entry appends its record. */
  lemma {:induction false} RecordsAppend(es: seq<E.TocEntry>, e: E.TocEntry)
    requires AllSerializable(es)
    requires E.Serializable(e)
    ensures Records(es + [e]) == Records(es) + Record(e)
  {
    if es == [] {
      assert [] + [e] == [e];
      assert Records([e]) == Record(e) + Records([]);
    } else {
      assert (es + [e])[0] == es[0];
      assert (es + [e])[1..] == es[1..] + [e];
      RecordsAppend(es[1..], e);
    }
  }

  /** A length prefix followed by the record it announces adds that entry
      and carries on after it. */
  lemma ParseRecord(e: E.TocEntry, c: seq<byte>, tail: seq<byte>, ix: nat, next: nat,
                    more: seq<E.TocEntry>, end: Outcome)
    requires E.Serializable(e) && c == Record(e) && next == ix + |c| && next + |tail| <= E.IntMax
    requires Parse(tail, next) == (more, end)
    ensures Parse(c + tail, ix) == ([e] + more, end)
  {
    var rest := c + tail;
    var item := E.Serialize(e);
    var n := |item|;
    assert rest[..4] == LE32(n);
    LE32RoundTrip(n, rest, 0);
    assert rest[4..4 + n] == item;
    assert rest[4 + n..] == tail;
    E.CreateSerialize(e);
  }

  /** A zero length prefix ends the loop with `true`. */
  lemma ParseTerminator(ix: nat)
    requires ix + 4 <= E.IntMax
    ensures Parse(Terminator, ix) == ([], Returned(true))
  {
    assert Terminator == LE32(0);
    LE32RoundTrip(0, Terminator, 0);
  }

  /** Reading records back from any cursor position recovers the entries,
      in order, and stops on the terminator. */
  lemma {:induction false} ParseRecords(es: seq<E.TocEntry>, ix: nat)
    requires AllSerializable(es) && ix + |Records(es) + Terminator| <= E.IntMax
    ensures Parse(Records(es) + Terminator, ix) == (es, Returned(true))
    decreases |es|, 1
  {
    if es == [] {
      assert Records(es) + Terminator == Terminator;
      ParseTerminator(ix);
    } else {
      ParseRecordsCons(es, ix);
    }
  }

  /** The step of `ParseRecords` for a non-empty run: the first record, then
      the rest. */
  lemma {:induction false} ParseRecordsCons(es: seq<E.TocEntry>, ix: nat)
    requires AllSerializable(es) && es != [] && ix + |Records(es) + Terminator| <= E.IntMax
    ensures Parse(Records(es) + Terminator, ix) == (es, Returned(true))
    decreases |es|, 0
  {
    var e := es[0];
    var c := Record(e);
    var tail := Records(es[1..]) + Terminator;
    var next: nat := ix + |c|;
    assert Records(es) + Terminator == c + tail;
    ParseRecords(es[1..], next);
    ParseRecord(e, c, tail, ix, next, es[1..], Returned(true));
    assert [e] + es[1..] == es;
  }

  /** Round trip: deserializing a serialized table yields its entries, field
      by field and in order, and returns `true`. Every record is at least 12
      bytes long, so no length prefix of a real entry reads as the
      terminator. */
  lemma SerializeDeserialize(es: seq<E.TocEntry>)
    requires AllSerializable(es)
    requires |TocBytes(es)| <= E.IntMax
    ensures Deserialized(TocBytes(es)) == (es, Returned(true))
  {
    assert TocBytes(es)[4..] == Records(es) + Terminator;
    ParseRecords(es, 4);
  }

  /** An empty table is the magic and the terminator: eight bytes. */
  lemma EmptyTocBytes()
    ensures TocBytes([]) == [0x01, 0x02, 0x03, 0x04, 0x00, 0x00, 0x00, 0x00]
  {
  }

  /** `Parse` from cursor `ix` of a whole buffer, case by case, with the
      length prefix read from the buffer itself. */
  lemma ParseAtShort(toc: seq<byte>, ix: nat)
    requires |toc| <= E.IntMax && ix <= |toc| && ix + 4 > |toc|
    ensures Parse(toc[ix..], ix) == ([], Threw)
  {
  }

  lemma ParseAtCount(toc: seq<byte>, ix: nat)
    requires |toc| <= E.IntMax && ix + 4 <= |toc|
    ensures ReadI32(toc[ix..], 0) == ReadI32(toc, ix)
  {
    ReadLE32Same(toc[ix..], 0, toc, ix);
  }

  lemma ParseAtStop(toc: seq<byte>, ix: nat)
    requires |toc| <= E.IntMax && ix + 4 <= |toc|
    requires var count := ReadI32(toc, ix);
      count == 0 || (0 < count && ix + 4 + count <= E.IntMax && ix + 4 + count > |toc|)
    ensures Parse(toc[ix..], ix) == ([], Returned(true))
  {
    ParseAtCount(toc, ix);
  }

  lemma ParseAtThrow(toc: seq<byte>, ix: nat)
    requires |toc| <= E.IntMax && ix + 4 <= |toc|
    requires var count := ReadI32(toc, ix);
      count < 0 || (0 < count && ix + 4 + count > E.IntMax)
      || (0 < count && ix + 4 + count <= |toc| && E.Create(toc[ix + 4..ix + 4 + count]).None?)
    ensures Parse(toc[ix..], ix) == ([], Threw)
  {
    ParseAtCount(toc, ix);
    var count := ReadI32(toc, ix);
    if 0 < count && ix + 4 + count <= |toc| {
      assert toc[ix..][4..4 + count] == toc[ix + 4..ix + 4 + count];
    }
  }

  lemma ParseItemStep(rest: seq<byte>, ix: nat, e: E.TocEntry, count: int, tail: seq<byte>, next: nat)
    requires ix + |rest| <= E.IntMax && 4 <= |rest| && count == ReadI32(rest, 0)
    requires 0 < count && 4 + count <= |rest| && E.Create(rest[4..4 + count]) == Some(e)
    requires tail == rest[4 + count..] && next == ix + 4 + count
    ensures Parse(rest, ix) == ([e] + Parse(tail, next).0, Parse(tail, next).1)
  {
  }

  lemma ParseAtItem(toc: seq<byte>, ix: nat, e: E.TocEntry, next: nat)
    requires |toc| <= E.IntMax && ix + 4 <= |toc|
    requires 0 < ReadI32(toc, ix) && next == ix + 4 + ReadI32(toc, ix) <= |toc|
    requires E.Create(toc[ix + 4..next]) == Some(e)
    ensures Parse(toc[ix..], ix) == ([e] + Parse(toc[next..], next).0, Parse(toc[next..], next).1)
  {
    var rest := toc[ix..];
    ParseAtCount(toc, ix);
    var count := ReadI32(toc, ix);
    assert rest[4..4 + count] == toc[ix + 4..next];
    assert rest[4 + count..] == toc[next..];
    ParseItemStep(rest, ix, e, count, toc[next..], next);
  }

  lemma AppendAssoc(a: seq<E.TocEntry>, e: E.TocEntry, b: seq<E.TocEntry>)
    ensures a + ([e] + b) == (a + [e]) + b
  {
  }

  /** How one turn of `Deserialize`'s loop ends: the loop stops with an
      outcome, or an entry is read and the cursor moves on to `next`. */
  datatype Turn = Stop(end: Outcome) | Item(entry: E.TocEntry, next: nat)

  /** One turn of `Deserialize`'s loop at cursor `ix`: read the length
      prefix, stop on 0 or on an item past the end, else read the item. What
      it does is the first step of `Parse`. */
  method NextItem(toc: seq<byte>, ix: nat) returns (t: Turn)
    requires |toc| <= E.IntMax && ix <= |toc|
    ensures t.Stop? ==> Parse(toc[ix..], ix) == ([], t.end)
    ensures t.Stop? ==> t.end.Threw? || t.end == Returned(true)
    ensures t.Item? ==> ix < t.next <= |toc|
    ensures t.Item? ==>
      Parse(toc[ix..], ix) == ([t.entry] + Parse(toc[t.next..], t.next).0, Parse(toc[t.next..], t.next).1)
  {
    if ix + 4 > |toc| {
      ParseAtShort(toc, ix);
      return Stop(Threw);
    }
    var count := ReadI32(toc, ix);
    if count == 0 {
      ParseAtStop(toc, ix);
      return Stop(Returned(true));
    }
    var at := ix + 4;
    if count < 0 || at + count > E.IntMax {
      ParseAtThrow(toc, ix);
      return Stop(Threw);
    }
    if at + count > |toc| {
      ParseAtStop(toc, ix);
      return Stop(Returned(true));
    }
    var item := toc[at..at + count];
    var entry := E.Create(item);
    if entry.None? {
      ParseAtThrow(toc, ix);
      return Stop(Threw);
    }
    var next := at + count;
    ParseAtItem(toc, ix, entry.value, next);
    return Item(entry.value, next);
  }

  class Toc {
    var entries: seq<E.TocEntry>

    /** `new Toc()`: no entries. */
    constructor ()
      ensures entries == []
    {
      entries := [];
    }

    /** `Toc.Deserialize`: adds the entries it reads to the end of `entries`
        (it never clears them, so entries added before a throw stay) and
        returns what `Deserialized` says. */
    method Deserialize(toc: seq<byte>) returns (r: Outcome)
      requires |toc| <= E.IntMax
      modifies this
      ensures r == Deserialized(toc).1
      ensures entries == old(entries) + Deserialized(toc).0
    {
      if |toc| < 1 { return Threw; }
      if toc[0] != Magic[0] { return Returned(false); }
      if |toc| < 2 { return Threw; }
      if toc[1] != Magic[1] { return Returned(false); }
      if |toc| < 3 { return Threw; }
      if toc[2] != Magic[2] { return Returned(false); }
      if |toc| < 4 { return Threw; }
      if toc[3] != Magic[3] { return Returned(false); }
      ghost var total := Parse(toc[4..], 4);
      ghost var added: seq<E.TocEntry> := [];
      ghost var pending := total;
      assert added + pending.0 == pending.0;
      var ix: nat := 4;
      while true
        invariant ix <= |toc|
        invariant entries == old(entries) + added
        invariant pending == Parse(toc[ix..], ix)
        invariant total == (added + pending.0, pending.1)
        decreases |toc| - ix
      {
        var step := NextItem(toc, ix);
        match step
        case Stop(end) =>
          if end.Threw? {
            return Threw;
          }
          break;
        case Item(entry, next) =>
          AppendAssoc(added, entry, Parse(toc[next..], next).0);
          entries := entries + [entry];
          added := added + [entry];
          pending := Parse(toc[next..], next);
          ix := next;
      }
      return Returned(true);
    }

    /** `Toc.Serialize`: the magic, every entry's record in order, the
        terminator. */
    method Serialize() returns (r: seq<byte>)
      requires AllSerializable(entries)
      ensures r == TocBytes(entries)
    {
      r := Magic;
      for i := 0 to |entries|
        invariant r == Magic + Records(entries[..i])
      {
        var buf := E.Serialize(entries[i]);
        RecordsAppend(entries[..i], entries[i]);
        assert entries[..i + 1] == entries[..i] + [entries[i]];
        r := r + LE32(|buf|) + buf;
      }
      assert entries[..|entries|] == entries;
      r := r + Terminator;
    }
  }
}
