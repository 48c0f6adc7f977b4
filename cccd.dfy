/**
 * The Client Characteristic Configuration Descriptor policy: each peer's
 * subscription bytes are kept in a non-volatile key-value store under the key
 * derived from its device address. A write stores the payload as it came; a
 * read returns what is stored, or `[0, 0]` (no notifications, no indications)
 * for a peer that has no record.
 */
module Cccd {
  import opened Bytes
  import opened PeerKey

  /** The contents of the storage namespace: key to raw record. */
  type Store = map<string, seq<byte>>

  /** Size of the buffer the read callback reads a record into. */
  const BufferLen := 2

  /** What a read returns for a peer with no record. */
  const Unsubscribed: seq<byte> := [0, 0]

  /** What the read callback returns for `bda` when the store holds `store`. */
  function Read(store: Store, bda: Address): seq<byte>
  {
    var key := FormatKey(bda);
    if key in store then store[key] else Unsubscribed
  }

  /** The store after the write callback has put `payload` for `bda`. */
  function Write(store: Store, bda: Address, payload: seq<byte>): Store
  {
    store[FormatKey(bda) := payload]
  }

  /** A peer that was never written for reads as unsubscribed. */
  lemma ReadUnseen(store: Store, bda: Address)
    requires FormatKey(bda) !in store
    ensures Read(store, bda) == Unsubscribed
    ensures |Read(store, bda)| == BufferLen
  {
  }

  /** A read after a write for the same peer returns the bytes written. */
  lemma WriteThenRead(store: Store, bda: Address, v: seq<byte>)
    requires |v| == BufferLen
    ensures Read(Write(store, bda, v), bda) == v
  {
  }

  /** A write keeps the payload verbatim, whatever its length, and adds no other key. */
  lemma WriteVerbatim(store: Store, bda: Address, payload: seq<byte>)
    ensures FormatKey(bda) in Write(store, bda, payload)
    ensures Write(store, bda, payload)[FormatKey(bda)] == payload
    ensures Write(store, bda, payload).Keys == store.Keys + {FormatKey(bda)}
  {
  }

  /** A write for one peer leaves every other peer's read as it was. */
  lemma WriteIsolation(store: Store, a: Address, b: Address, v: seq<byte>)
    requires a != b
    ensures Read(Write(store, a, v), b) == Read(store, b)
  {
    FormatKeyInjective(a, b);
  }

  /** A later write for the same peer replaces the earlier one entirely. */
  lemma WriteOverwrites(store: Store, bda: Address, v: seq<byte>, w: seq<byte>)
    ensures Write(Write(store, bda, v), bda, w) == Write(store, bda, w)
  {
  }

  /** Writes for two different peers do not interfere, in whichever order they are serialised. */
  lemma WritesCommute(store: Store, a: Address, b: Address, v: seq<byte>, w: seq<byte>)
    requires a != b
    ensures Write(Write(store, a, v), b, w) == Write(Write(store, b, w), a, v)
  {
    FormatKeyInjective(a, b);
  }

  /** One access to the descriptor, from one peer. */
  datatype Access = ReadAccess(bda: Address) | WriteAccess(bda: Address, payload: seq<byte>)

  /** The store after one access: reads leave it as it is. */
  function Step(store: Store, access: Access): Store
  {
    match access
    case ReadAccess(_) => store
    case WriteAccess(bda, payload) => Write(store, bda, payload)
  }

  /** The store after a sequence of accesses, in the order the lock serialised them. */
  function Run(store: Store, trace: seq<Access>): Store
    decreases |trace|
  {
    if trace == [] then store else Run(Step(store, trace[0]), trace[1..])
  }

  /** The payload of the last write for `bda` in `trace`, if there is one. */
  function LastWrite(trace: seq<Access>, bda: Address): Option<seq<byte>>
    decreases |trace|
  {
    if trace == [] then None
    else match LastWrite(trace[1..], bda)
      case Some(v) => Some(v)
      case None => if trace[0].WriteAccess? && trace[0].bda == bda then Some(trace[0].payload) else None
  }

  /**
   * After any serialised sequence of reads and writes, a peer reads the last
   * payload it wrote, or what it read before the sequence if it wrote nothing;
   * accesses of other peers and reads of its own have no effect.
   */
  lemma {:induction false} RunRead(store: Store, trace: seq<Access>, bda: Address)
    ensures Read(Run(store, trace), bda) ==
      match LastWrite(trace, bda)
      case Some(v) => v
      case None => Read(store, bda)
    decreases |trace|
  {
    if trace != [] {
      var next := Step(store, trace[0]);
      RunRead(next, trace[1..], bda);
      if LastWrite(trace[1..], bda).None? {
        match trace[0]
        case ReadAccess(_) =>
        case WriteAccess(a, payload) =>
          if a != bda {
            WriteIsolation(store, a, bda, payload);
          }
      }
    }
  }

  /** Every write in the trace carries a 2-byte CCCD value, the size the read buffer holds. */
  predicate CccdSized(trace: seq<Access>) {
    forall i :: 0 <= i < |trace| && trace[i].WriteAccess? ==> |trace[i].payload| == BufferLen
  }

  /** In a trace of 2-byte writes, a peer's last write is 2 bytes. */
  lemma {:induction false} LastWriteSized(trace: seq<Access>, bda: Address)
    requires CccdSized(trace)
    ensures LastWrite(trace, bda).Some? ==> |LastWrite(trace, bda).value| == BufferLen
    decreases |trace|
  {
    if trace != [] {
      assert CccdSized(trace[1..]) by {
        forall i | 0 <= i < |trace[1..]| && trace[1..][i].WriteAccess?
          ensures |trace[1..][i].payload| == BufferLen
        {
          assert trace[1..][i] == trace[i + 1];
        }
      }
      LastWriteSized(trace[1..], bda);
    }
  }

  /**
   * RunRead where every write is a 2-byte CCCD value, the case in which a
   * whole-record read and the 2-byte buffer read agree: a peer reads its last
   * write, or its earlier value if it wrote nothing, and a peer whose reply
   * was 2 bytes long keeps getting 2-byte replies.
   */
  lemma RunRead2Byte(store: Store, trace: seq<Access>, bda: Address)
    requires CccdSized(trace)
    ensures LastWrite(trace, bda).Some? ==>
      Read(Run(store, trace), bda) == LastWrite(trace, bda).value && |Read(Run(store, trace), bda)| == BufferLen
    ensures LastWrite(trace, bda).None? ==> Read(Run(store, trace), bda) == Read(store, bda)
    ensures |Read(store, bda)| == BufferLen ==> |Read(Run(store, trace), bda)| == BufferLen
  {
    RunRead(store, trace, bda);
    LastWriteSized(trace, bda);
  }

  /** A sequence of reads alone never changes the store. */
  lemma {:induction false} ReadsKeepStore(store: Store, trace: seq<Access>)
    requires forall i :: 0 <= i < |trace| ==> trace[i].ReadAccess?
    ensures Run(store, trace) == store
    decreases |trace|
  {
    if trace != [] {
      ReadsKeepStore(store, trace[1..]);
    }
  }

  /** What the callback answers to one access: the read reply, or None for a write, which answers nothing. */
  function Reply(store: Store, access: Access): Option<seq<byte>>
  {
    match access
    case ReadAccess(bda) => Some(Read(store, bda))
    case WriteAccess(_, _) => None
  }

  /** The answers to a trace, in order, each given from the store the accesses before it left. */
  function Replies(store: Store, trace: seq<Access>): seq<Option<seq<byte>>>
    decreases |trace|
  {
    if trace == [] then []
    else
      var prefix := trace[..|trace| - 1];
      Replies(store, prefix) + [Reply(Run(store, prefix), trace[|trace| - 1])]
  }

  /** There is one answer per access. */
  lemma {:induction false} RepliesLength(store: Store, trace: seq<Access>)
    ensures |Replies(store, trace)| == |trace|
    decreases |trace|
  {
    if trace != [] {
      RepliesLength(store, trace[..|trace| - 1]);
    }
  }

  /** Every read in a trace is answered from the store as all accesses before it left it. */
  lemma {:induction false} RepliesAt(store: Store, trace: seq<Access>, i: nat)
    requires i < |trace|
    ensures |Replies(store, trace)| == |trace|
    ensures Replies(store, trace)[i] == Reply(Run(store, trace[..i]), trace[i])
    decreases |trace|
  {
    var prefix := trace[..|trace| - 1];
    var last := Reply(Run(store, prefix), trace[|trace| - 1]);
    assert Replies(store, trace) == Replies(store, prefix) + [last];
    RepliesLength(store, prefix);
    if i < |prefix| {
      RepliesAt(store, prefix, i);
      assert prefix[..i] == trace[..i] && prefix[i] == trace[i];
    } else {
      assert trace[..i] == prefix;
    }
  }

  /** One more access extends both the store and the answers of a replay by one step. */
  lemma ReplaySnoc(store: Store, trace: seq<Access>, access: Access)
    ensures Run(store, trace + [access]) == Step(Run(store, trace), access)
    ensures Replies(store, trace + [access]) == Replies(store, trace) + [Reply(Run(store, trace), access)]
  {
    assert (trace + [access])[..|trace|] == trace;
    RunSnoc(store, trace, access);
  }

  /** Running one more access after a trace is one more Step. */
  lemma {:induction false} RunSnoc(store: Store, trace: seq<Access>, access: Access)
    ensures Run(store, trace + [access]) == Step(Run(store, trace), access)
    decreases |trace|
  {
    if trace != [] {
      assert (trace + [access])[1..] == trace[1..] + [access];
      RunSnoc(Step(store, trace[0]), trace[1..], access);
    }
  }

  /**
   * The process-wide storage handle the two callbacks share. The lock that
   * guards it is not modelled: each method is one critical section.
   */
  class CccdStorage {
    var records: Store

    /** Opens the namespace with the records that persisted from earlier sessions. */
    constructor (persisted: Store)
      ensures records == persisted
    {
      records := persisted;
    }

    /** The read callback: looks up the peer's key and falls back to `[0, 0]`. */
    method OnRead(bda: Address) returns (value: seq<byte>)
      ensures value == Read(records, bda)
    {
      var key := FormatKey(bda);
      if key in records {
        value := records[key];
      } else {
        value := [0, 0];
      }
    }

    /** The write callback: puts the payload under the peer's key, replacing any record. */
    method OnWrite(payload: seq<byte>, bda: Address)
      modifies this
      ensures records == Write(old(records), bda, payload)
    {
      var key := FormatKey(bda);
      records := records[key := payload];
    }

    /** Hands one access to the callback it is meant for. */
    method Serve(access: Access) returns (value: Option<seq<byte>>)
      modifies this
      ensures value == Reply(old(records), access)
      ensures records == Step(old(records), access)
    {
      match access {
        case ReadAccess(bda) =>
          var bytes := OnRead(bda);
          value := Some(bytes);
        case WriteAccess(bda, payload) =>
          OnWrite(payload, bda);
          value := None;
      }
    }

    /**
     * Delivers a sequence of accesses to the callbacks one after the other, as
     * the lock serialises them, and collects what they answer.
     */
    method Replay(trace: seq<Access>) returns (replies: seq<Option<seq<byte>>>)
      modifies this
      ensures records == Run(old(records), trace)
      ensures replies == Replies(old(records), trace)
    {
      ghost var start := records;
      ghost var done: seq<Access> := [];
      replies := [];
      var i := 0;
      while i < |trace|
        invariant 0 <= i <= |trace| && done == trace[..i]
        invariant records == Run(start, done)
        invariant replies == Replies(start, done)
      {
        var value := Serve(trace[i]);
        ReplaySnoc(start, done, trace[i]);
        replies := replies + [value];
        done := done + [trace[i]];
        i := i + 1;
      }
      assert done == trace;
    }
  }

  /**
   * One session: a peer enables notifications and reads them back, and a
   * peer the store has never seen reads the default.
   */
  method ExampleSession() returns (own: seq<byte>, other: seq<byte>)
    ensures own == [0x01, 0x00] && other == [0x00, 0x00]
  {
    var storage := new CccdStorage(map[]);
    var peer: Address := [0xDE, 0xAD, 0xBE, 0xEF, 0x00, 0x01];
    var stranger: Address := [0x11, 0x22, 0x33, 0x44, 0x55, 0x66];
    storage.OnWrite([0x01, 0x00], peer);
    own := storage.OnRead(peer);
    FormatKeyInjective(peer, stranger);
    other := storage.OnRead(stranger);
  }
}
