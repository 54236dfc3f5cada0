/**
 * The on-disk format of data.sawit: each command is a frame made of its byte length
 * as a little-endian int32 followed by the command's bytes, and the file is the
 * frames one after another. Reading follows the rehydration loop: a length, then a
 * single read of that many bytes, until end of file.
 */
module Framing {
  import opened Wrappers

  /** Go's byte. */
  newtype Byte = b: int | 0 <= b < 256

  type Bytes = seq<Byte>

  const TwoTo31: int := 0x8000_0000
  const TwoTo32: int := 0x1_0000_0000

  /** Go's int32(n): the low 32 bits of n read as a two's-complement number. */
  function ToInt32(n: int): (v: int)
    ensures -TwoTo31 <= v < TwoTo31
    ensures (v - n) % TwoTo32 == 0
    ensures 0 <= n < TwoTo31 ==> v == n
  {
    var m := n % TwoTo32;
    if m < TwoTo31 then m else m - TwoTo32
  }

  /** binary.Write of an int32 in little-endian order: the low byte first. */
  function PutInt32(v: int): (b: Bytes)
    requires -TwoTo31 <= v < TwoTo31
    ensures |b| == 4
  {
    var u0 := v % TwoTo32;
    var u1 := u0 / 256;
    var u2 := u1 / 256;
    var u3 := u2 / 256;
    [(u0 % 256) as Byte, (u1 % 256) as Byte, (u2 % 256) as Byte, u3 as Byte]
  }

  /** binary.Read of a little-endian int32. */
  function GetInt32(b: Bytes): (v: int)
    requires |b| == 4
    ensures -TwoTo31 <= v < TwoTo31
  {
    var u := b[0] as int + 256 * (b[1] as int + 256 * (b[2] as int + 256 * b[3] as int));
    if u < TwoTo31 then u else u - TwoTo32
  }

  lemma Int32RoundTrip(v: int)
    requires -TwoTo31 <= v < TwoTo31
    ensures GetInt32(PutInt32(v)) == v
  {
    var u0 := v % TwoTo32;
    var u1 := u0 / 256;
    var u2 := u1 / 256;
    var u3 := u2 / 256;
    assert u0 == u0 % 256 + 256 * u1;
    assert u1 == u1 % 256 + 256 * u2;
    assert u2 == u2 % 256 + 256 * u3;
    var b := PutInt32(v);
    assert b[0] as int == u0 % 256 && b[1] as int == u1 % 256;
    assert b[2] as int == u2 % 256 && b[3] as int == u3;
  }

  /** One frame: the length prefix ExecuteAQL writes, then the command's bytes. */
  function EncodeFrame(command: Bytes): (b: Bytes)
    ensures |b| == 4 + |command|
  {
    PutInt32(ToInt32(|command|)) + command
  }

  /** The file after writing `commands` in order. */
  function EncodeLog(commands: seq<Bytes>): Bytes {
    if commands == [] then [] else EncodeFrame(commands[0]) + EncodeLog(commands[1..])
  }

  function Zeros(n: nat): (z: Bytes)
    ensures |z| == n
  {
    seq(n, _ => 0)
  }

  /** Why reading stopped before the end of the file. */
  datatype ReadError =
    | ShortLength      // 1 to 3 bytes left where a length was expected (io.ErrUnexpectedEOF)
    | NegativeLength   // the length is negative: make([]byte, length) panics
    | MissingBody      // a positive length with no byte after it: the read returns io.EOF

  /** The commands read from a file, and the error that stopped the reading, if any. */
  datatype Reading = Reading(commands: seq<Bytes>, error: Option<ReadError>)

  /** The most one read of an os.File returns: Go's poll layer caps every read at 1 GiB. */
  const MaxRead: int := 0x4000_0000

  /**
   * How many bytes one read into a buffer of `n` bytes returns when `available` bytes
   * are left in the file: all it asked for, all that is left, or the 1 GiB cap,
   * whichever is least.
   */
  function ReadSize(n: nat, available: nat): (k: nat)
    ensures k <= n && k <= available && k <= MaxRead
    ensures k == n || k == available || k == MaxRead
  {
    if n <= available && n <= MaxRead then n
    else if available <= MaxRead then available
    else MaxRead
  }

  /** One turn of the rehydration loop: it stops, with or without an error, or reads a body and moves on. */
  datatype Step = Stop(error: Option<ReadError>) | Frame(body: Bytes, next: nat)

  /**
   * One turn of the rehydration loop at the start of `file`. At the end of the file
   * the length read returns io.EOF and the loop ends cleanly. Otherwise the body is
   * read with a single read into a zeroed buffer of the frame's length: the bytes
   * that read returns come first, the rest of the buffer stays zero, and the next
   * length is read from where the read stopped.
   */
  function FirstFrame(file: Bytes): (f: Step)
    ensures f == Stop(None) <==> file == []
    ensures f.Frame? ==> 4 <= f.next <= |file|
  {
    if file == [] then Stop(None)
    else if |file| < 4 then Stop(Some(ShortLength))
    else
      var n := GetInt32(file[..4]);
      if n < 0 then Stop(Some(NegativeLength))
      else if n > 0 && |file| == 4 then Stop(Some(MissingBody))
      else if n <= |file| - 4 && n <= MaxRead then Frame(file[4..4 + n], 4 + n)
      else
        var k := ReadSize(n, |file| - 4);
        Frame(file[4..4 + k] + Zeros(n - k), 4 + k)
  }

  /**
   * A loop turn that reads a body: the body has the length read from the prefix and
   * starts with the bytes after the prefix up to where the next frame starts.
   */
  lemma FirstFrameBody(file: Bytes)
    requires FirstFrame(file).Frame?
    ensures var f := FirstFrame(file);
      |file| >= 4 && |f.body| == GetInt32(file[..4]) && file[4..f.next] <= f.body
  {
  }

  /**
   * What rehydration reads from `file`: loop turns until one stops. A body cut short
   * by the end of the file is returned padded with zeros and the next length read
   * ends the loop cleanly; a body longer than 1 GiB is returned cut at 1 GiB and
   * reading goes on from inside it.
   */
  function Decode(file: Bytes): (r: Reading)
    decreases |file|
  {
    match FirstFrame(file)
    case Stop(e) => Reading([], e)
    case Frame(body, next) =>
      var tail := Decode(file[next..]);
      Reading([body] + tail.commands, tail.error)
  }

  /** A whole frame of at most 1 GiB in front of `tail` is read back as its command, then reading goes on with `tail`. */
  lemma DecodeFrame(c: Bytes, tail: Bytes)
    requires |c| <= MaxRead
    ensures Decode(EncodeFrame(c) + tail) == Reading([c] + Decode(tail).commands, Decode(tail).error)
  {
    var file := EncodeFrame(c) + tail;
    Int32RoundTrip(|c|);
    assert file[..4] == PutInt32(|c|);
    assert file[4..4 + |c|] == c;
    assert file[4 + |c|..] == tail;
    assert c + Zeros(0) == c;
    assert FirstFrame(file) == Frame(c, 4 + |c|);
  }

  /**
   * A frame longer than 1 GiB is not read back: its command comes back as its first
   * 1 GiB followed by zeros, and the next length is read from inside its body.
   */
  lemma LongFrameReadShort(c: Bytes, tail: Bytes)
    requires MaxRead < |c| < TwoTo31
    ensures var r := Decode(EncodeFrame(c) + tail);
      var next := Decode(c[MaxRead..] + tail);
      r == Reading([c[..MaxRead] + Zeros(|c| - MaxRead)] + next.commands, next.error)
  {
    var file := EncodeFrame(c) + tail;
    Int32RoundTrip(|c|);
    assert file[..4] == PutInt32(|c|);
    assert file[4..4 + MaxRead] == c[..MaxRead];
    assert file[4 + MaxRead..] == c[MaxRead..] + tail;
    assert FirstFrame(file) == Frame(c[..MaxRead] + Zeros(|c| - MaxRead), 4 + MaxRead);
  }

  /** Reading back a file written frame by frame, no frame over 1 GiB, gives the same commands and no error. */
  lemma {:induction false} DecodeEncode(commands: seq<Bytes>)
    requires forall i :: 0 <= i < |commands| ==> |commands[i]| <= MaxRead
    ensures Decode(EncodeLog(commands)) == Reading(commands, None)
  {
    if commands != [] {
      DecodeEncode(commands[1..]);
      DecodeFrame(commands[0], EncodeLog(commands[1..]));
      assert [commands[0]] + commands[1..] == commands;
    }
  }

  /** A write that stopped inside a length prefix makes the whole file unreadable. */
  lemma {:induction false} TornLengthFailsReading(commands: seq<Bytes>, torn: Bytes)
    requires forall i :: 0 <= i < |commands| ==> |commands[i]| <= MaxRead
    requires 0 < |torn| < 4
    ensures Decode(EncodeLog(commands) + torn).error == Some(ShortLength)
  {
    if commands == [] {
      assert EncodeLog(commands) + torn == torn;
    } else {
      var tail := EncodeLog(commands[1..]) + torn;
      assert EncodeLog(commands) + torn == EncodeFrame(commands[0]) + tail;
      DecodeFrame(commands[0], tail);
      TornLengthFailsReading(commands[1..], torn);
    }
  }

  /**
   * A body cut short by the end of the file (a torn write) is read padded with zeros
   * to its length, and reading then stops without an error.
   */
  lemma TornBodyPadded(rest: Bytes)
    requires |rest| > 4 && |rest| - 4 <= MaxRead && GetInt32(rest[..4]) > |rest| - 4
    ensures Decode(rest) == Reading([rest[4..] + Zeros(GetInt32(rest[..4]) - (|rest| - 4))], None)
  {
    TornBodyFrame(rest);
    var tail := rest[|rest|..];
    assert tail == [];
    assert Decode(tail) == Reading([], None);
  }

  /** The loop turn on a torn body: one read returns what is left of the file. */
  lemma TornBodyFrame(rest: Bytes)
    requires |rest| > 4 && |rest| - 4 <= MaxRead && GetInt32(rest[..4]) > |rest| - 4
    ensures FirstFrame(rest) == Frame(rest[4..] + Zeros(GetInt32(rest[..4]) - (|rest| - 4)), |rest|)
  {
    var n, available := GetInt32(rest[..4]), |rest| - 4;
    assert ReadSize(n, available) == available;
    assert rest[4..4 + available] == rest[4..];
  }

  /** Decode takes one loop turn and, unless it stopped, decodes the rest from where that turn left off. */
  lemma DecodeTurn(file: Bytes)
    ensures FirstFrame(file).Stop? ==> Decode(file) == Reading([], FirstFrame(file).error)
    ensures FirstFrame(file).Frame? ==>
      var f := FirstFrame(file);
      Decode(file) == Reading([f.body] + Decode(file[f.next..]).commands, Decode(file[f.next..]).error)
  {
  }

  /** A reading that goes on with one more command: the command joins the ones read so far. */
  lemma ReadingStep(whole: Reading, done: seq<Bytes>, current: Reading, body: Bytes, next: Reading)
    requires whole == Reading(done + current.commands, current.error)
    requires current == Reading([body] + next.commands, next.error)
    ensures whole == Reading((done + [body]) + next.commands, next.error)
  {
    assert done + ([body] + next.commands) == (done + [body]) + next.commands;
  }

  /** After one more frame, what the loop has read is still a prefix of the whole reading. */
  lemma ReadStep(file: Bytes, rest: Bytes, body: Bytes, next: nat, done: seq<Bytes>)
    requires FirstFrame(rest) == Frame(body, next)
    requires Decode(file) == Reading(done + Decode(rest).commands, Decode(rest).error)
    ensures Decode(file) == Reading((done + [body]) + Decode(rest[next..]).commands, Decode(rest[next..]).error)
  {
    DecodeTurn(rest);
    ReadingStep(Decode(file), done, Decode(rest), body, Decode(rest[next..]));
  }

  /**
   * One turn of the rehydration loop on the unread `rest` of the file: read the
   * length, then the body with one read into a zeroed buffer of that length; `stop`
   * is the error that ends the loop there, and otherwise reading goes on `next`
   * bytes further.
   */
  method ReadFrame(rest: Bytes) returns (body: Bytes, next: nat, stop: Option<ReadError>)
    requires rest != []
    ensures stop.Some? ==> FirstFrame(rest) == Stop(stop)
    ensures stop.None? ==> FirstFrame(rest) == Frame(body, next)
  {
    if |rest| < 4 {
      return [], 0, Some(ShortLength);
    }
    var n := GetInt32(rest[..4]);
    if n < 0 {
      return [], 0, Some(NegativeLength);
    }
    var available := |rest| - 4;
    if n > 0 && available == 0 {
      return [], 0, Some(MissingBody);
    }
    var k := ReadSize(n, available);
    if k == n {
      body := rest[4..4 + k];
    } else {
      body := rest[4..4 + k] + Zeros(n - k);
    }
    next, stop := 4 + k, None;
  }

  /** The rehydration loop over the bytes of the file: frame after frame until the end or an error. */
  method ReadLog(file: Bytes) returns (commands: seq<Bytes>, error: Option<ReadError>)
    ensures Reading(commands, error) == Decode(file)
  {
    commands, error := [], None;
    var rest := file;
    assert [] + Decode(rest).commands == Decode(rest).commands;
    while rest != []
      invariant Decode(file) == Reading(commands + Decode(rest).commands, Decode(rest).error)
      decreases |rest|
    {
      var body, next, stop := ReadFrame(rest);
      if stop.Some? {
        DecodeTurn(rest);
        assert commands + [] == commands;
        return commands, stop;
      }
      ReadStep(file, rest, body, next, commands);
      commands := commands + [body];
      rest := rest[next..];
    }
    assert commands + [] == commands;
  }
}
