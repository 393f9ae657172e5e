/** The event records of the example tracer (example/): the kernel side
    fills a fixed C struct, and the Go side decodes each raw sample as
    little-endian fields, trims the NULs that pad its strings and skips a
    sample too short to decode.
    - The `O_DIRECTORY` rule is applied by the kernel-side program
      (example/example.bpf.c:76-77), which emits no event for such an open;
      it is modelled on its own as `Suppressed`.
    - The Go decoder has one layout: `context_t` with `flags` and `mode`
      read from `open_how` (example/example.bpf.c:72-73).
    - String fields are trimmed of their trailing NUL bytes
      (`bytes.TrimRight`, example/example.go:168-169).
    The perf buffer, the timeout and the printing are not modelled. */
module Records {
  import opened Wrappers

  type Byte = x: nat | x < 256

  /** 256 to the power `n`. */
  function Pow256(n: nat): (r: nat)
    ensures r > 0
  {
    if n == 0 then 1 else 256 * Pow256(n - 1)
  }

  /** The unsigned integer whose little-endian bytes are `b`. */
  function LittleEndian(b: seq<Byte>): (v: nat)
    ensures v < Pow256(|b|)
  {
    if |b| == 0 then 0 else b[0] + 256 * LittleEndian(b[1..])
  }

  /** The `width` little-endian bytes of `v`. */
  function ToLittleEndian(v: nat, width: nat): (b: seq<Byte>)
    ensures |b| == width
  {
    if width == 0 then [] else [v % 256] + ToLittleEndian(v / 256, width - 1)
  }

  /** Writing a value that fits and reading it back gives the value. */
  lemma {:induction false} LittleEndianRoundTrip(v: nat, width: nat)
    requires v < Pow256(width)
    ensures LittleEndian(ToLittleEndian(v, width)) == v
  {
    if width > 0 {
      LittleEndianRoundTrip(v / 256, width - 1);
      assert ToLittleEndian(v, width)[1..] == ToLittleEndian(v / 256, width - 1);
    }
  }

  /** Reading bytes and writing the value back gives the bytes. */
  lemma {:induction false} ToLittleEndianRoundTrip(b: seq<Byte>)
    ensures ToLittleEndian(LittleEndian(b), |b|) == b
  {
    if |b| > 0 {
      ToLittleEndianRoundTrip(b[1..]);
      var v := LittleEndian(b);
      assert v % 256 == b[0] && v / 256 == LittleEndian(b[1..]);
    }
  }

  /** Largest values of `uint32` and `uint64`. */
  lemma Widths()
    ensures Pow256(4) == 0x1_0000_0000
    ensures Pow256(8) == 0x1_0000_0000_0000_0000
  {
  }

  /** `bytes.TrimRight(b, "\x00")`: drops every trailing NUL and nothing else. */
  function TrimNul(b: seq<Byte>): (r: seq<Byte>)
    ensures |r| <= |b| && b[..|r|] == r
    ensures forall k :: |r| <= k < |b| ==> b[k] == 0
    ensures |r| > 0 ==> r[|r| - 1] != 0
  {
    if |b| == 0 || b[|b| - 1] != 0 then b else TrimNul(b[..|b| - 1])
  }

  /** Trimming a string padded with NULs gives the string back, when it
      does not end in a NUL itself. */
  lemma {:induction false} TrimNulPadding(s: seq<Byte>, n: nat)
    requires |s| == 0 || s[|s| - 1] != 0
    ensures TrimNul(s + seq(n, _ => 0)) == s
  {
    if n > 0 {
      var padded := s + seq(n, _ => 0);
      assert padded[..|padded| - 1] == s + seq(n - 1, _ => 0);
      TrimNulPadding(s, n - 1);
    }
  }

  // ---------------------------------------------------------------------
  // example/example.go: the 120-byte `context_t` of example.h

  /** `context_t` (example.h): offsets and sizes of its fields. */
  const PidAt := 0
  const TidAt := 4
  const PPidAt := 8
  const UidAt := 12
  const FlagsAt := 16
  const ModeAt := 24
  const TsAt := 32
  const CommAt := 40
  const CommSize := 16
  const FileNameAt := 56
  const FileNameSize := 64
  const ContextSize := 120

  /** The fields follow one another with no gaps, each aligned to its size,
      and fill the 120 bytes exactly. */
  lemma ContextLayout()
    ensures TidAt == PidAt + 4 && PPidAt == TidAt + 4 && UidAt == PPidAt + 4
    ensures FlagsAt == UidAt + 4 && ModeAt == FlagsAt + 8 && TsAt == ModeAt + 8
    ensures CommAt == TsAt + 8 && FileNameAt == CommAt + CommSize
    ensures ContextSize == FileNameAt + FileNameSize
    ensures FlagsAt % 8 == 0 && ModeAt % 8 == 0 && TsAt % 8 == 0
  {
  }

  /** The decoded event (`gdata` of example.go). */
  datatype Event = Event(
    pid: nat, tid: nat, ppid: nat, uid: nat, flags: nat, mode: nat, ts: nat,
    comm: seq<Byte>, fileName: seq<Byte>)

  /** The little-endian value of `width` bytes at `at`. */
  function Field(buf: seq<Byte>, at: nat, width: nat): nat
    requires at + width <= |buf|
  {
    LittleEndian(buf[at..at + width])
  }

  /** `binary.Read` into `data` and the copy into `gdata`: a sample shorter
      than the struct is an error, and bytes past it are ignored. */
  function DecodeEvent(buf: seq<Byte>): (r: Result<Event, string>)
    ensures r.Err? <==> |buf| < ContextSize
    ensures r.Ok? ==> r.value.pid < Pow256(4) && r.value.flags < Pow256(8)
    ensures r.Ok? ==> |r.value.comm| <= CommSize && |r.value.fileName| <= FileNameSize
  {
    if |buf| < ContextSize then Err("unexpected EOF")
    else Ok(Event(
      Field(buf, PidAt, 4), Field(buf, TidAt, 4), Field(buf, PPidAt, 4), Field(buf, UidAt, 4),
      Field(buf, FlagsAt, 8), Field(buf, ModeAt, 8), Field(buf, TsAt, 8),
      TrimNul(buf[CommAt..CommAt + CommSize]), TrimNul(buf[FileNameAt..FileNameAt + FileNameSize])))
  }

  /** The four `u32` fields of `context_t`. */
  function EncodeIds(pid: nat, tid: nat, ppid: nat, uid: nat): (b: seq<Byte>)
    ensures |b| == 16
  {
    ToLittleEndian(pid, 4) + ToLittleEndian(tid, 4) + ToLittleEndian(ppid, 4) + ToLittleEndian(uid, 4)
  }

  /** The three `u64` fields of `context_t`. */
  function EncodeOpen(flags: nat, mode: nat, ts: nat): (b: seq<Byte>)
    ensures |b| == 24
  {
    ToLittleEndian(flags, 8) + ToLittleEndian(mode, 8) + ToLittleEndian(ts, 8)
  }

  /** What the kernel side writes: the struct laid out as in example.h. */
  function EncodeContext(pid: nat, tid: nat, ppid: nat, uid: nat, flags: nat, mode: nat, ts: nat,
                         comm: seq<Byte>, fileName: seq<Byte>): (buf: seq<Byte>)
    requires |comm| == CommSize && |fileName| == FileNameSize
    ensures |buf| == ContextSize
  {
    EncodeIds(pid, tid, ppid, uid) + EncodeOpen(flags, mode, ts) + comm + fileName
  }

  lemma IdsLayout(pid: nat, tid: nat, ppid: nat, uid: nat)
    ensures var b := EncodeIds(pid, tid, ppid, uid);
            && b[0..4] == ToLittleEndian(pid, 4) && b[4..8] == ToLittleEndian(tid, 4)
            && b[8..12] == ToLittleEndian(ppid, 4) && b[12..16] == ToLittleEndian(uid, 4)
  {
    FourPieces(ToLittleEndian(pid, 4), ToLittleEndian(tid, 4), ToLittleEndian(ppid, 4), ToLittleEndian(uid, 4));
  }

  lemma OpenLayout(flags: nat, mode: nat, ts: nat)
    ensures var b := EncodeOpen(flags, mode, ts);
            && b[0..8] == ToLittleEndian(flags, 8) && b[8..16] == ToLittleEndian(mode, 8)
            && b[16..24] == ToLittleEndian(ts, 8)
  {
    ThreePieces(ToLittleEndian(flags, 8), ToLittleEndian(mode, 8), ToLittleEndian(ts, 8));
  }

  /** Four 4-byte pieces laid end to end. */
  lemma FourPieces(a: seq<Byte>, b: seq<Byte>, c: seq<Byte>, d: seq<Byte>)
    requires |a| == 4 && |b| == 4 && |c| == 4 && |d| == 4
    ensures var s := a + b + c + d; s[0..4] == a && s[4..8] == b && s[8..12] == c && s[12..16] == d
  {
  }

  /** Three 8-byte pieces laid end to end. */
  lemma ThreePieces(a: seq<Byte>, b: seq<Byte>, c: seq<Byte>)
    requires |a| == 8 && |b| == 8 && |c| == 8
    ensures var s := a + b + c; s[0..8] == a && s[8..16] == b && s[16..24] == c
  {
  }

  /** Where the groups of fields land in the written struct. */
  lemma ContextGroups(ids: seq<Byte>, open: seq<Byte>, comm: seq<Byte>, fileName: seq<Byte>, extra: seq<Byte>)
    requires |ids| == 16 && |open| == 24 && |comm| == CommSize && |fileName| == FileNameSize
    ensures var buf := ids + open + comm + fileName + extra;
            && buf[..16] == ids && buf[16..40] == open && buf[40..56] == comm && buf[56..120] == fileName
  {
  }

  /** Where each field lands in the written struct. */
  lemma EncodeContextLayout(pid: nat, tid: nat, ppid: nat, uid: nat, flags: nat, mode: nat, ts: nat,
                            comm: seq<Byte>, fileName: seq<Byte>, extra: seq<Byte>)
    requires |comm| == CommSize && |fileName| == FileNameSize
    ensures var buf := EncodeContext(pid, tid, ppid, uid, flags, mode, ts, comm, fileName) + extra;
            && buf[PidAt..PidAt + 4] == ToLittleEndian(pid, 4)
            && buf[TidAt..TidAt + 4] == ToLittleEndian(tid, 4)
            && buf[PPidAt..PPidAt + 4] == ToLittleEndian(ppid, 4)
            && buf[UidAt..UidAt + 4] == ToLittleEndian(uid, 4)
            && buf[FlagsAt..FlagsAt + 8] == ToLittleEndian(flags, 8)
            && buf[ModeAt..ModeAt + 8] == ToLittleEndian(mode, 8)
            && buf[TsAt..TsAt + 8] == ToLittleEndian(ts, 8)
            && buf[CommAt..CommAt + CommSize] == comm
            && buf[FileNameAt..FileNameAt + FileNameSize] == fileName
  {
    var ids := EncodeIds(pid, tid, ppid, uid);
    var open := EncodeOpen(flags, mode, ts);
    var buf := EncodeContext(pid, tid, ppid, uid, flags, mode, ts, comm, fileName) + extra;
    ContextGroups(ids, open, comm, fileName, extra);
    IdsLayout(pid, tid, ppid, uid);
    OpenLayout(flags, mode, ts);
    assert buf[0..16] == ids;
    SubSlice(buf, ids, 0, 0, 4);
    SubSlice(buf, ids, 0, 4, 8);
    SubSlice(buf, ids, 0, 8, 12);
    SubSlice(buf, ids, 0, 12, 16);
    SubSlice(buf, open, 16, 0, 8);
    SubSlice(buf, open, 16, 8, 16);
    SubSlice(buf, open, 16, 16, 24);
  }

  /** A slice of a piece is the slice of the whole at the shifted bounds. */
  lemma SubSlice(s: seq<Byte>, t: seq<Byte>, lo: nat, a: nat, b: nat)
    requires lo + |t| <= |s| && s[lo..lo + |t|] == t && a <= b <= |t|
    ensures s[lo + a..lo + b] == t[a..b]
  {
    forall j | 0 <= j < b - a
      ensures s[lo + a..lo + b][j] == t[a..b][j]
    {
      assert s[lo + a + j] == s[lo..lo + |t|][a + j];
    }
  }

  /** Decoding what the kernel side wrote, with anything after it, gives the
      numbers unchanged and the strings without their NUL padding. */
  lemma DecodeEncodedEvent(pid: nat, tid: nat, ppid: nat, uid: nat, flags: nat, mode: nat, ts: nat,
                           comm: seq<Byte>, fileName: seq<Byte>, extra: seq<Byte>)
    requires pid < Pow256(4) && tid < Pow256(4) && ppid < Pow256(4) && uid < Pow256(4)
    requires flags < Pow256(8) && mode < Pow256(8) && ts < Pow256(8)
    requires |comm| == CommSize && |fileName| == FileNameSize
    ensures DecodeEvent(EncodeContext(pid, tid, ppid, uid, flags, mode, ts, comm, fileName) + extra)
            == Ok(Event(pid, tid, ppid, uid, flags, mode, ts, TrimNul(comm), TrimNul(fileName)))
  {
    EncodeContextLayout(pid, tid, ppid, uid, flags, mode, ts, comm, fileName, extra);
    LittleEndianRoundTrip(pid, 4);
    LittleEndianRoundTrip(tid, 4);
    LittleEndianRoundTrip(ppid, 4);
    LittleEndianRoundTrip(uid, 4);
    LittleEndianRoundTrip(flags, 8);
    LittleEndianRoundTrip(mode, 8);
    LittleEndianRoundTrip(ts, 8);
  }

  /** Bytes after the first 120 do not change the event. */
  lemma DecodeEventIgnoresTail(buf: seq<Byte>, extra: seq<Byte>)
    requires |buf| >= ContextSize
    ensures DecodeEvent(buf + extra) == DecodeEvent(buf)
  {
    var s := buf + extra;
    forall at: nat, w: nat | at + w <= ContextSize
      ensures Field(s, at, w) == Field(buf, at, w)
    {
      assert s[at..at + w] == buf[at..at + w];
    }
    assert s[CommAt..CommAt + CommSize] == buf[CommAt..CommAt + CommSize];
    assert s[FileNameAt..FileNameAt + FileNameSize] == buf[FileNameAt..FileNameAt + FileNameSize];
  }

  /** The event loop: samples that do not decode are skipped, the others
      are decoded in order. */
  function DecodeAll(samples: seq<seq<Byte>>): (events: seq<Event>)
    ensures |events| <= |samples|
    ensures forall e :: e in events <==> exists s :: s in samples && DecodeEvent(s) == Ok(e)
  {
    if |samples| == 0 then []
    else
      var rest := DecodeAll(samples[1..]);
      assert forall s :: s in samples <==> s == samples[0] || s in samples[1..];
      match DecodeEvent(samples[0])
      case Err(_) => rest
      case Ok(e) => [e] + rest
  }

  /** A short sample is skipped and the loop goes on with the next one. */
  lemma ShortSampleSkipped(s: seq<Byte>, samples: seq<seq<Byte>>)
    requires |s| < ContextSize
    ensures DecodeAll([s] + samples) == DecodeAll(samples)
  {
    assert ([s] + samples)[1..] == samples;
  }

  // ---------------------------------------------------------------------
  // example/mine.go: the 32-byte record

  const MineCommSize := 16
  const MinePidAt := 16
  const MineUidAt := 20
  const MineGidAt := 24
  const MineLoginUidAt := 28
  const MineSize := 32

  /** The decoded record (`gdata` of mine.go). */
  datatype Login = Login(comm: seq<Byte>, pid: nat, uid: nat, gid: nat, loginUid: nat)

  /** `binary.Read` into mine.go's `data`: the command name first, then four
      `uint32`s; a short sample is an error. */
  function DecodeLogin(buf: seq<Byte>): (r: Result<Login, string>)
    ensures r.Err? <==> |buf| < MineSize
    ensures r.Ok? ==> |r.value.comm| <= MineCommSize
    ensures r.Ok? ==> r.value.pid < Pow256(4) && r.value.loginUid < Pow256(4)
  {
    if |buf| < MineSize then Err("unexpected EOF")
    else Ok(Login(TrimNul(buf[..MineCommSize]), Field(buf, MinePidAt, 4), Field(buf, MineUidAt, 4),
                  Field(buf, MineGidAt, 4), Field(buf, MineLoginUidAt, 4)))
  }

  /** The record the kernel side writes for mine.go. */
  function EncodeLogin(comm: seq<Byte>, pid: nat, uid: nat, gid: nat, loginUid: nat): (buf: seq<Byte>)
    requires |comm| == MineCommSize
    ensures |buf| == MineSize
  {
    comm + ToLittleEndian(pid, 4) + ToLittleEndian(uid, 4) + ToLittleEndian(gid, 4) + ToLittleEndian(loginUid, 4)
  }

  /** Decoding the written record gives the numbers unchanged and the
      command name without NUL padding; trailing bytes are ignored. */
  lemma DecodeEncodedLogin(comm: seq<Byte>, pid: nat, uid: nat, gid: nat, loginUid: nat, extra: seq<Byte>)
    requires |comm| == MineCommSize
    requires pid < Pow256(4) && uid < Pow256(4) && gid < Pow256(4) && loginUid < Pow256(4)
    ensures DecodeLogin(EncodeLogin(comm, pid, uid, gid, loginUid) + extra)
            == Ok(Login(TrimNul(comm), pid, uid, gid, loginUid))
  {
    var a := ToLittleEndian(pid, 4);
    var b := ToLittleEndian(uid, 4);
    var c := ToLittleEndian(gid, 4);
    var d := ToLittleEndian(loginUid, 4);
    var buf := comm + a + b + c + d + extra;
    assert buf[..16] == comm;
    assert buf[16..20] == a;
    assert buf[20..24] == b;
    assert buf[24..28] == c;
    assert buf[28..32] == d;
    LittleEndianRoundTrip(pid, 4);
    LittleEndianRoundTrip(uid, 4);
    LittleEndianRoundTrip(gid, 4);
    LittleEndianRoundTrip(loginUid, 4);
  }

  // ---------------------------------------------------------------------
  // example/example.h and example.bpf.c

  /** `KERNEL_VERSION(a, b, c)`. */
  function KernelVersionCode(a: nat, b: nat, c: nat): nat {
    a * 65536 + b * 256 + c
  }

  /** For minor and patch numbers below 256 the code orders versions as
      (major, minor, patch) are ordered lexicographically, and so tells
      different versions apart. */
  lemma KernelVersionCodeOrder(a: nat, b: nat, c: nat, a': nat, b': nat, c': nat)
    requires b < 256 && c < 256 && b' < 256 && c' < 256
    ensures KernelVersionCode(a, b, c) < KernelVersionCode(a', b', c') <==>
            a < a' || (a == a' && (b < b' || (b == b' && c < c')))
    ensures KernelVersionCode(a, b, c) == KernelVersionCode(a', b', c') <==> a == a' && b == b' && c == c'
  {
    if a < a' {
      assert a * 65536 + 65536 <= a' * 65536;
    } else if a' < a {
      assert a' * 65536 + 65536 <= a * 65536;
    }
  }

  /** `O_DIRECTORY` (octal 00200000). */
  const ODirectory: nat := 0x1_0000

  /** The kernel side emits no event for an open whose flags carry
      `O_DIRECTORY`: `flags & O_DIRECTORY` is non-zero exactly when bit 16,
      the one bit of `O_DIRECTORY`, is set. */
  predicate Suppressed(flags: nat) {
    (flags / ODirectory) % 2 == 1
  }

  /** Whether an open is suppressed depends on bit 16 alone: the bits
      below it and above it do not matter. */
  lemma SuppressedOnlyBit16(high: nat, low: nat)
    requires low < ODirectory
    ensures Suppressed(high * (2 * ODirectory) + ODirectory + low)
    ensures !Suppressed(high * (2 * ODirectory) + low)
  {
    assert (high * (2 * ODirectory) + ODirectory + low) / ODirectory == 2 * high + 1;
    assert (high * (2 * ODirectory) + low) / ODirectory == 2 * high;
  }
}
