/** The serial receiver of more_uart.c: finding a frame in a window of the byte stream, and
    reading a pose from it. */
module FrameSync {
  const PACK_LEN := 21

  const SP_OK := 1
  const SP_HEADER_ERR := -1

  /** A frame: a header byte that occurs nowhere else in it, and a tail byte at its end. */
  ghost predicate Framed(f: seq<char>) {
    |f| == PACK_LEN && f[0] == '$' && f[PACK_LEN - 1] == '\n' && forall k :: 1 <= k < PACK_LEN ==> f[k] != '$'
  }

  /** The test of the search loop at offset i. */
  predicate MarkedAt(data: seq<char>, i: nat)
    requires i + PACK_LEN <= |data|
  {
    data[i] == '$' && data[i + PACK_LEN - 1] == '\n'
  }

  /** One turn of the receiver on a window of two frame lengths: the first marked offset wins
      and its frame is copied; with none, the buffer keeps the old frame. */
  method Receive(data: array<char>, uartBuff: array<char>) returns (uart: int)
    requires data.Length == 2 * PACK_LEN && uartBuff.Length == PACK_LEN && data != uartBuff
    modifies uartBuff
    ensures uart == SP_OK || uart == SP_HEADER_ERR
    ensures uart == SP_HEADER_ERR ==>
      (forall i: nat :: i <= PACK_LEN ==> !MarkedAt(data[..], i)) && uartBuff[..] == old(uartBuff[..])
    ensures uart == SP_OK ==>
      exists i: nat :: i <= PACK_LEN && FirstMark(data[..], i) && uartBuff[..] == data[..][i..i + PACK_LEN]
  {
    var i := 0;
    while i <= PACK_LEN
      invariant i <= PACK_LEN + 1 && forall k: nat :: k < i ==> !MarkedAt(data[..], k)
    {
      if data[i] == '$' && data[i + PACK_LEN - 1] == '\n' {
        break;
      }
      i := i + 1;
    }
    if i <= PACK_LEN {
      for cnt := 0 to PACK_LEN
        invariant uartBuff[..cnt] == data[i..i + cnt]
      {
        uartBuff[cnt] := data[cnt + i];
      }
      assert FirstMark(data[..], i) && uartBuff[..] == data[..][i..i + PACK_LEN];
      uart := SP_OK;
    } else {
      uart := SP_HEADER_ERR;
    }
  }

  ghost predicate FirstMark(data: seq<char>, i: nat)
    requires |data| == 2 * PACK_LEN
  {
    i <= PACK_LEN && MarkedAt(data, i) && forall k: nat :: k < i ==> !MarkedAt(data, k)
  }

  /** The first mark, byte by byte. */
  lemma FirstMarkIs(data: seq<char>, i: nat)
    requires |data| == 42
    ensures FirstMark(data, i) <==>
      && i <= 21 && data[i] == '$' && data[i + 20] == '\n'
      && forall k: nat :: k < i ==> data[k] != '$' || data[k + 20] != '\n'
  {
    if i <= 21 && forall k: nat :: k < i ==> data[k] != '$' || data[k + 20] != '\n' {
      forall k: nat | k < i
        ensures !MarkedAt(data, k)
      {
        assert data[k] != '$' || data[k + 20] != '\n';
      }
    }
    if FirstMark(data, i) {
      forall k: nat | k < i
        ensures data[k] != '$' || data[k + 20] != '\n'
      {
        assert !MarkedAt(data, k);
      }
    }
  }

  ghost predicate AllFramed(frames: nat -> seq<char>) {
    forall j :: Framed(frames(j))
  }

  /** Byte k of a stream of frames sent back to back. */
  ghost function StreamByte(frames: nat -> seq<char>, k: nat): char
    requires AllFramed(frames)
  {
    assert Framed(frames(k / PACK_LEN));
    frames(k / PACK_LEN)[k % PACK_LEN]
  }

  /** data is what passes from byte s of the stream on. */
  ghost predicate Window(frames: nat -> seq<char>, s: nat, data: seq<char>) {
    AllFramed(frames) && |data| == 2 * PACK_LEN && forall k: nat :: k < |data| ==> data[k] == StreamByte(frames, s + k)
  }

  /** Wherever the window starts, the search succeeds and what it finds is a frame sent: the
      first one that lies in the window whole. */
  lemma WindowHoldsAFrame(frames: nat -> seq<char>, s: nat, data: seq<char>, i: nat)
    requires Window(frames, s, data)
    requires i == (PACK_LEN - s % PACK_LEN) % PACK_LEN
    ensures FirstMark(data, i) && data[i..i + PACK_LEN] == frames((s + i) / PACK_LEN)
  {
    var q, r := s / PACK_LEN, s % PACK_LEN;
    var f := (s + i) / PACK_LEN;
    assert s + i == f * PACK_LEN;
    assert Framed(frames(f)) && Framed(frames(q));
    forall k | 0 <= k < PACK_LEN
      ensures data[i + k] == frames(f)[k]
    {
      assert (s + (i + k)) / PACK_LEN == f && (s + (i + k)) % PACK_LEN == k;
    }
    forall k: nat | k < i
      ensures !MarkedAt(data, k)
    {
      assert (s + k) / PACK_LEN == q && (s + k) % PACK_LEN == r + k >= 1;
    }
  }

  lemma FirstMarkIsUnique(data: seq<char>, i: nat, j: nat)
    requires |data| == 2 * PACK_LEN && FirstMark(data, i) && FirstMark(data, j)
    ensures i == j
  {
  }

  // ---------- Poses ----------

  /** A pose in tenths, the rotation to the left counted positive. */
  datatype Pose = Pose(x: nat, y: nat, yaw: int)

  predicate Sendable(p: Pose) {
    p.x < 10000 && p.y < 10000 && -10000 < p.yaw < 10000
  }

  type SentPose = p: Pose | Sendable(p) witness Pose(0, 0, 0)

  /** What the receiver keeps of a pose. */
  datatype Reading = Reading(x: real, y: real, yaw: real)

  function DigitChar(d: nat): (c: char)
    requires d < 10
    ensures c as int - 48 == d
  {
    (48 + d) as char
  }

  /** DDD.D */
  function Field(v: nat): (f: seq<char>)
    requires v < 10000
    ensures |f| == 5
  {
    [DigitChar(v / 1000), DigitChar(v / 100 % 10), DigitChar(v / 10 % 10), '.', DigitChar(v % 10)]
  }

  /** The frame of a pose. */
  function PoseFrame(p: Pose): (f: seq<char>)
    requires Sendable(p)
    ensures |f| == PACK_LEN
  {
    ['$', '@', 'X'] + Field(p.x) + ['Y'] + Field(p.y)
      + [if p.yaw >= 0 then 'L' else 'R'] + Field(if p.yaw >= 0 then p.yaw else -p.yaw) + ['\n']
  }

  /** The value of the field that starts at byte k. */
  function FieldValue(b: seq<char>, k: nat): real
    requires k + 5 <= |b|
  {
    ((b[k] as int - 48) * 100 + (b[k + 1] as int - 48) * 10 + (b[k + 2] as int - 48)) as real
      + (b[k + 4] as int - 48) as real * 0.1
  }

  /** The '@' branch of data_analysis: nothing once pic_flag is set, and a field whose letter
      is missing keeps its value. */
  function ReadPose(b: seq<char>, picFlag: bool, was: Reading): Reading
    requires |b| == PACK_LEN
  {
    if b[1] != '@' || picFlag then was
    else Reading(
      if b[2] == 'X' then FieldValue(b, 3) else was.x,
      if b[8] == 'Y' then FieldValue(b, 9) else was.y,
      if b[14] == 'R' then -FieldValue(b, 15) else if b[14] == 'L' then FieldValue(b, 15) else was.yaw)
  }

  /** Only an '@' frame read before pic_flag is set changes the reading, and in it only the fields
      whose letter is there. */
  lemma ReadingStays(b: seq<char>, picFlag: bool, was: Reading)
    requires |b| == PACK_LEN
    ensures picFlag || b[1] != '@' ==> ReadPose(b, picFlag, was) == was
    ensures b[2] != 'X' ==> ReadPose(b, picFlag, was).x == was.x
    ensures b[8] != 'Y' ==> ReadPose(b, picFlag, was).y == was.y
    ensures b[14] != 'L' && b[14] != 'R' ==> ReadPose(b, picFlag, was).yaw == was.yaw
  {
  }

  /** One frame, letter by letter. */
  lemma SampleFrame()
    ensures PoseFrame(Pose(1234, 567, -890)) ==
      ['$', '@', 'X', '1', '2', '3', '.', '4', 'Y', '0', '5', '6', '.', '7', 'R', '0', '8', '9', '.', '0', '\n']
  {
  }

  lemma SampleReading(was: Reading)
    ensures ReadPose(PoseFrame(Pose(1234, 567, -890)), false, was) == Reading(123.4, 56.7, -89.0)
  {
    hide PoseFrame, ReadPose, Field, FieldValue;
    PoseRoundTrip(Pose(1234, 567, -890), was);
  }

  /** Reading a field gives back the number it was written from. */
  lemma FieldRoundTrip(v: nat, b: seq<char>, k: nat)
    requires v < 10000 && k + 5 <= |b| && b[k..k + 5] == Field(v)
    ensures FieldValue(b, k) == v as real / 10.0
  {
    var f := Field(v);
    assert b[k] == f[0] && b[k + 1] == f[1] && b[k + 2] == f[2] && b[k + 4] == f[4];
    var d0, d1, d2, d3 := v / 1000, v / 100 % 10, v / 10 % 10, v % 10;
    Digits(v, d0, d1, d2, d3);
    hide Field, DigitChar;
    assert FieldValue(b, k) == (d0 * 100 + d1 * 10 + d2) as real + d3 as real * 0.1;
  }

  lemma Digits(v: nat, d0: nat, d1: nat, d2: nat, d3: nat)
    requires d0 == v / 1000 && d1 == v / 100 % 10 && d2 == v / 10 % 10 && d3 == v % 10
    ensures v == (d0 * 100 + d1 * 10 + d2) * 10 + d3
  {
    assert v / 100 / 10 == v / 1000 && v / 10 / 10 == v / 100;
  }

  lemma FieldIsClean(v: nat)
    requires v < 10000
    ensures forall k :: 0 <= k < 5 ==> Field(v)[k] != '$' && Field(v)[k] != '\n'
  {
  }

  lemma PoseFrameIsFramed(p: Pose)
    requires Sendable(p)
    ensures Framed(PoseFrame(p))
  {
    FieldIsClean(p.x);
    FieldIsClean(p.y);
    FieldIsClean(if p.yaw >= 0 then p.yaw else -p.yaw);
  }

  function Exact(p: Pose): Reading {
    Reading(p.x as real / 10.0, p.y as real / 10.0, p.yaw as real / 10.0)
  }

  /** The receiver reads back the pose sent. */
  lemma PoseRoundTrip(p: Pose, was: Reading)
    requires Sendable(p)
    ensures ReadPose(PoseFrame(p), false, was) == Exact(p)
  {
    var b := PoseFrame(p);
    var turn := if p.yaw >= 0 then p.yaw else -p.yaw;
    assert b[3..8] == Field(p.x) && b[9..14] == Field(p.y) && b[15..20] == Field(turn);
    FieldRoundTrip(p.x, b, 3);
    FieldRoundTrip(p.y, b, 9);
    FieldRoundTrip(turn, b, 15);
  }

  ghost function PoseFrames(poses: nat -> SentPose): nat -> seq<char> {
    (j: nat) => PoseFrame(poses(j))
  }

  /** data is what passes of the frames of these poses from byte s on. */
  ghost predicate PosesPass(poses: nat -> SentPose, s: nat, data: seq<char>) {
    |data| == 2 * PACK_LEN && forall k: nat :: k < |data| ==>
      data[k] == PoseFrame(poses((s + k) / PACK_LEN))[(s + k) % PACK_LEN]
  }

  lemma PosesMakeAWindow(poses: nat -> SentPose, s: nat, data: seq<char>)
    requires PosesPass(poses, s, data)
    ensures Window(PoseFrames(poses), s, data)
  {
    hide PoseFrame, Framed;
    forall j: nat
      ensures Framed(PoseFrames(poses)(j))
    {
      PoseFrameIsFramed(poses(j));
    }
  }

  /** End to end: from any window of a stream of pose frames the receiver reads, exactly, the
      first pose whose frame begins in the window. */
  method ReceivePose(data: array<char>, uartBuff: array<char>, was: Reading, ghost poses: nat -> SentPose, ghost s: nat)
    returns (uart: int, reading: Reading)
    requires data.Length == 2 * PACK_LEN && uartBuff.Length == PACK_LEN && data != uartBuff
    requires PosesPass(poses, s, data[..])
    modifies uartBuff
    ensures uart == SP_OK && reading == Exact(poses((s + PACK_LEN - 1) / PACK_LEN))
  {
    hide PosesPass, FirstMark, ReadPose, Exact;
    ghost var i := FrameInWindow(poses, s, data[..]);
    uart := Receive(data, uartBuff);
    ghost var j: nat :| j <= PACK_LEN && FirstMark(data[..], j) && uartBuff[..] == data[..][j..j + PACK_LEN];
    FirstMarkIsUnique(data[..], i, j);
    reading := ReadPose(uartBuff[..], false, was);
    PoseRoundTrip(poses((s + PACK_LEN - 1) / PACK_LEN), was);
  }

  lemma FrameInWindow(poses: nat -> SentPose, s: nat, data: seq<char>) returns (i: nat)
    requires PosesPass(poses, s, data)
    ensures FirstMark(data, i) && data[i..i + PACK_LEN] == PoseFrame(poses((s + PACK_LEN - 1) / PACK_LEN))
  {
    i := (PACK_LEN - s % PACK_LEN) % PACK_LEN;
    PosesMakeAWindow(poses, s, data);
    WindowHoldsAFrame(PoseFrames(poses), s, data, i);
    assert (s + i) / PACK_LEN == (s + PACK_LEN - 1) / PACK_LEN;
  }
}
