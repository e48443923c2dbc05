/** The PS4 controller receiver of PS4Serial.cpp: one byte at a time, against a declarative
    reading of the whole byte stream. */
module FrameReceiver {
  import opened Bits

  const SYNC: Byte := 255

  const INITIAL: seq<Byte> := [0, 0, 127, 127, 127, 127, 0, 0]

  // ---- the declarative reading --------------------------------------------------------------

  function Sum(s: seq<Byte>): nat {
    if s == [] then 0 else Sum(s[..|s| - 1]) + s[|s| - 1]
  }

  /** Where the frame under way begins: after the last sync byte, or at the stream's start. */
  function FrameStart(stream: seq<Byte>): (i: nat)
    ensures i <= |stream|
  {
    if stream == [] then 0
    else if stream[|stream| - 1] == SYNC then |stream|
    else FrameStart(stream[..|stream| - 1])
  }

  /** The last byte closes a frame: at least eight bytes came since the frame began, and the
      byte equals the sum of the first eight modulo 128. */
  predicate Accepts(stream: seq<Byte>) {
    && stream != []
    && var before, data := stream[..|stream| - 1], stream[|stream| - 1];
      && data != SYNC
      && |before| >= FrameStart(before) + 8
      && Sum(before[FrameStart(before)..FrameStart(before) + 8]) % 128 == data
  }

  /** The payload of the last accepted frame, or the initial vector. */
  function Snapshot(stream: seq<Byte>): (s: seq<Byte>)
    ensures |s| == 8
  {
    if stream == [] then INITIAL
    else if Accepts(stream) then
      var before := stream[..|stream| - 1];
      before[FrameStart(before)..FrameStart(before) + 8]
    else Snapshot(stream[..|stream| - 1])
  }

  // ---- the receiver -------------------------------------------------------------------------

  class Receiver {
    var ControllerData: array<Byte>
    var Receive: array<Byte>
    var rp: nat
    var check: nat
    ghost var stream: seq<Byte>

    /** What the fields mean: the snapshot of the whole stream, and the first eight bytes of the
        frame under way with their sum. */
    ghost predicate Valid()
      reads this, ControllerData, Receive
    {
      && ControllerData.Length == 8 && Receive.Length == 8 && ControllerData != Receive
      && ControllerData[..] == Snapshot(stream)
      && var start := FrameStart(stream);
        && rp == (if |stream| - start < 8 then |stream| - start else 8)
        && Receive[..rp] == stream[start..start + rp]
        && check == Sum(Receive[..rp])
    }

    constructor ()
      ensures Valid() && fresh(ControllerData) && fresh(Receive) && stream == []
      ensures forall k :: 0 <= k < 8 ==> ControllerData[k] == if 2 <= k <= 5 then 127 else 0
    {
      hide Snapshot, FrameStart, Sum;
      EmptyStream();
      ControllerData := new Byte[8](i => if 2 <= i <= 5 then 127 else 0);
      Receive := new Byte[8](_ => 0);
      rp := 0;
      check := 0;
      stream := [];
      new;
      assert ControllerData[..] == INITIAL;
    }

    /** The copying loop of an accepted frame. */
    method TakeFrame()
      requires ControllerData.Length == 8 && Receive.Length == 8 && ControllerData != Receive
      modifies ControllerData
      ensures ControllerData[..] == Receive[..8]
    {
      for i := 0 to 8
        invariant Receive[..] == old(Receive[..])
        invariant ControllerData[..i] == Receive[..i]
      {
        ControllerData[i] := Receive[i];
      }
    }

    method WirelessRecive(data: Byte)
      requires Valid()
      modifies `rp, `check, `stream, ControllerData, Receive
      ensures Valid() && stream == old(stream) + [data] && ControllerData[..] == Snapshot(stream)
    {
      hide Sum, Snapshot, FrameStart, Accepts, And;
      ghost var before := stream;
      Received(before, data);
      OneByteMore(before, data, FrameStart(before));
      stream := stream + [data];
      if data == 0xff {
        rp := 0;
        check := 0;
      } else if rp >= 8 {
        CheckMask(check);
        if And(check, 0x7f) == data {
          TakeFrame();
        }
      } else {
        Receive[rp] := data;
        rp := rp + 1;
        check := check + data;
        assert Receive[..rp] == old(Receive[..rp]) + [data];
      }
    }
  }

  lemma EmptyStream()
    ensures Snapshot([]) == INITIAL && FrameStart([]) == 0 && Sum([]) == 0
  {
  }

  /** How the declarative reading moves with one more byte. */
  lemma Received(before: seq<Byte>, data: Byte)
    ensures var after := before + [data];
      && FrameStart(after) == (if data == SYNC then |after| else FrameStart(before))
      && Snapshot(after) == if Accepts(after) then before[FrameStart(before)..FrameStart(before) + 8] else Snapshot(before)
    ensures Accepts(before + [data]) <==> (data != SYNC && |before| >= FrameStart(before) + 8
      && Sum(before[FrameStart(before)..FrameStart(before) + 8]) % 128 == data)
    ensures Sum([]) == 0
    ensures forall s: seq<Byte> {:trigger Sum(s + [data])} :: Sum(s + [data]) == Sum(s) + data
  {
    var after := before + [data];
    assert after[..|after| - 1] == before;
    forall s: seq<Byte>
      ensures Sum(s + [data]) == Sum(s) + data
    {
      assert (s + [data])[..|s + [data]| - 1] == s;
    }
  }

  lemma OneByteMore(before: seq<Byte>, data: Byte, start: nat)
    requires start <= |before|
    ensures |before| >= start + 8 ==> (before + [data])[start..start + 8] == before[start..start + 8]
    ensures (before + [data])[start..|before| + 1] == before[start..|before|] + [data]
  {
  }

  lemma CheckMask(x: nat)
    ensures And(x, 0x7f) == x % 128
  {
    hide And;
    Pow2Values();
    assert Pow2(7) == 128 by {
      Pow2Sum(1, 6);
    }
    AndLow(x, 7);
  }

  // ---- what the reading promises ------------------------------------------------------------

  /** A frame begins right after the last sync byte; the stream's start counts as one. */
  lemma {:induction false} FrameStartMeaning(stream: seq<Byte>)
    ensures var start := FrameStart(stream);
      && (start == 0 || stream[start - 1] == 255)
      && forall i :: start <= i < |stream| ==> stream[i] != 255
  {
    if stream != [] && stream[|stream| - 1] != SYNC {
      FrameStartMeaning(stream[..|stream| - 1]);
    }
  }

  /** `start` and `close` delimit an accepted frame of the stream. */
  ghost predicate FrameAt(stream: seq<Byte>, start: nat, close: nat) {
    && start + 8 <= close < |stream|
    && (start == 0 || stream[start - 1] == SYNC)
    && (forall i :: start <= i <= close ==> stream[i] != SYNC)
    && Sum(stream[start..start + 8]) % 128 == stream[close]
  }

  lemma AcceptedIsFrame(stream: seq<Byte>)
    requires Accepts(stream)
    ensures FrameAt(stream, FrameStart(stream[..|stream| - 1]), |stream| - 1)
  {
    hide Sum;
    var before := stream[..|stream| - 1];
    FrameStartMeaning(before);
    var start := FrameStart(before);
    assert before[start..start + 8] == stream[start..start + 8];
  }

  lemma FrameIsAccepted(stream: seq<Byte>, start: nat)
    requires stream != [] && FrameAt(stream, start, |stream| - 1)
    ensures Accepts(stream) && FrameStart(stream[..|stream| - 1]) == start
  {
    hide Sum;
    var before := stream[..|stream| - 1];
    FrameStartMeaning(before);
    StartUnique(before, start);
    assert before[start..start + 8] == stream[start..start + 8];
  }

  lemma StartUnique(stream: seq<Byte>, start: nat)
    requires start <= |stream| && (start == 0 || stream[start - 1] == SYNC)
    requires forall i :: start <= i < |stream| ==> stream[i] != SYNC
    ensures FrameStart(stream) == start
  {
    FrameStartMeaning(stream);
  }

  /** No frame closes after this one. */
  ghost predicate LastFrame(stream: seq<Byte>, start: nat, close: nat) {
    FrameAt(stream, start, close) && forall s: nat, c: nat :: FrameAt(stream, s, c) ==> c <= close
  }

  /** Safety, for every byte stream: the snapshot is the initial vector and no frame was ever
      closed, or it is the payload of the frame closed last. */
  lemma {:induction false} SnapshotIsLastFrame(stream: seq<Byte>)
    ensures || (Snapshot(stream) == INITIAL && forall s: nat, c: nat :: !FrameAt(stream, s, c))
            || exists s: nat, c: nat :: LastFrame(stream, s, c) && Snapshot(stream) == stream[s..s + 8]
  {
    hide Sum, Accepts;
    if stream != [] {
      var n := |stream| - 1;
      if Accepts(stream) {
        AcceptedIsFrame(stream);
        var start := FrameStart(stream[..n]);
        assert LastFrame(stream, start, n);
        assert stream[..n][start..start + 8] == stream[start..start + 8];
      } else {
        SnapshotIsLastFrame(stream[..n]);
        FramesOfPrefix(stream);
        if s: nat, c: nat :| LastFrame(stream[..n], s, c) && Snapshot(stream[..n]) == stream[..n][s..s + 8] {
          KeepsLast(stream, s, c);
        }
      }
    }
  }

  lemma KeepsLast(stream: seq<Byte>, s: nat, c: nat)
    requires stream != [] && !Accepts(stream) && LastFrame(stream[..|stream| - 1], s, c)
    ensures LastFrame(stream, s, c) && stream[..|stream| - 1][s..s + 8] == stream[s..s + 8]
  {
    assert s + 8 <= c < |stream| - 1;
    hide FrameAt, Accepts;
    FramesOfPrefix(stream);
    PrefixSlice(stream, |stream| - 1, s);
  }

  lemma PrefixSlice(stream: seq<Byte>, n: nat, s: nat)
    requires s + 8 <= n <= |stream|
    ensures stream[..n][s..s + 8] == stream[s..s + 8]
  {
  }

  lemma FramesOfPrefix(stream: seq<Byte>)
    requires stream != [] && !Accepts(stream)
    ensures forall s: nat, c: nat :: FrameAt(stream, s, c) <==> FrameAt(stream[..|stream| - 1], s, c)
  {
    hide Sum, Accepts;
    var n := |stream| - 1;
    forall s: nat, c: nat
      ensures FrameAt(stream, s, c) <==> FrameAt(stream[..n], s, c)
    {
      if FrameAt(stream, s, c) && c == n {
        FrameIsAccepted(stream, s);
      }
      if s + 8 <= c < n {
        assert stream[..n][s..s + 8] == stream[s..s + 8];
      }
    }
  }

  /** A sync byte, eight bytes other than sync and their checksum, after anything. */
  function Frame(garbage: seq<Byte>, payload: seq<Byte>): (f: seq<Byte>)
    ensures |f| == |garbage| + |payload| + 2
  {
    garbage + [SYNC] + payload + [Sum(payload) % 128]
  }

  lemma FrameCloses(garbage: seq<Byte>, payload: seq<Byte>)
    requires |payload| == 8 && SYNC !in payload
    ensures FrameAt(Frame(garbage, payload), |garbage| + 1, |garbage| + 9)
    ensures Frame(garbage, payload)[|garbage| + 1..|garbage| + 9] == payload
  {
    hide Sum;
    var stream, start := Frame(garbage, payload), |garbage| + 1;
    assert stream[start..start + 8] == payload;
    assert forall i :: start <= i < start + 8 ==> stream[i] in payload;
  }

  /** Resynchronisation: after any garbage at all, such a frame leaves exactly its eight bytes,
      and bytes that follow before the next sync byte cannot change them. */
  lemma {:induction false} Resynchronises(garbage: seq<Byte>, payload: seq<Byte>, more: seq<Byte>)
    requires |payload| == 8 && SYNC !in payload && SYNC !in more
    ensures Snapshot(Frame(garbage, payload) + more) == payload
    decreases more
  {
    hide Sum, Accepts, Frame;
    var frame, start := Frame(garbage, payload), |garbage| + 1;
    var stream := frame + more;
    FrameCloses(garbage, payload);
    if more == [] {
      assert stream == frame;
      FrameIsAccepted(frame, start);
      PrefixSlice(frame, |frame| - 1, start);
    } else {
      var before := frame + more[..|more| - 1];
      assert stream[..|stream| - 1] == before;
      Resynchronises(garbage, payload, more[..|more| - 1]);
      assert forall i :: |frame| <= i < |before| ==> before[i] in more;
      StartUnique(before, start);
      assert before[..|frame|] == frame;
      PrefixSlice(before, |frame|, start);
    }
  }

  lemma {:induction false} SumOfChanged(s: seq<Byte>, i: nat, b: Byte)
    requires i < |s|
    ensures Sum(s[i := b]) == Sum(s) - s[i] + b
  {
    var n := |s| - 1;
    if i < n {
      assert s[i := b][..n] == s[..n][i := b];
      SumOfChanged(s[..n], i, b);
    } else {
      assert s[i := b][..n] == s[..n];
    }
  }

  /** A frame with one altered payload byte passes its old checksum exactly when the alteration
      is a multiple of 128. */
  lemma SingleByteErrors(garbage: seq<Byte>, payload: seq<Byte>, i: nat, b: Byte)
    requires |payload| == 8 && SYNC !in payload && i < 8 && b != SYNC
    ensures Accepts(garbage + [SYNC] + payload[i := b] + [Sum(payload) % 128]) <==> (b - payload[i]) % 128 == 0
  {
    hide Sum, Accepts;
    var start, altered := |garbage| + 1, payload[i := b];
    var stream := garbage + [SYNC] + altered + [Sum(payload) % 128];
    SumOfChanged(payload, i, b);
    assert stream[start..start + 8] == altered;
    assert forall k :: start <= k < start + 8 ==> stream[k] == altered[k - start];
    assert forall k :: 0 <= k < 8 && k != i ==> altered[k] in payload;
    StartUnique(stream[..start + 8], start);
    if FrameAt(stream, start, start + 8) {
      FrameIsAccepted(stream, start);
    }
    if Accepts(stream) {
      AcceptedIsFrame(stream);
      assert stream[..|stream| - 1] == stream[..start + 8];
    }
    SameResidue(Sum(altered), Sum(payload));
  }

  lemma SameResidue(x: int, y: int)
    ensures x % 128 == y % 128 <==> (x - y) % 128 == 0
  {
  }
}
