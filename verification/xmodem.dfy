/** The XMODEM exchange of umodem 2.8 (8-bit, FTP 3): packets, and one step of each side.
    `Receive` is one turn of the do-while loop in rfile, `Hear` is what sfile does
    between two calls of readbyte. */
module Xmodem {
  import opened Basics

  const TIMEOUT := -1
  const EOT: Reading := 4
  const ACK: Reading := 6
  const LF: Byte := 10
  const CR: Byte := 13
  const NAK: Reading := 21
  const CAN: Reading := 24
  const CTRLZ: Byte := 26
  const ERRORMAX := 10
  const RETRYMAX := 10
  const BBUFSIZ := 128

  // what readbyte returns: a byte, or TIMEOUT
  type Reading = x: int | -1 <= x < 256
  type Block = s: seq<Byte> | |s| == BBUFSIZ witness seq(BBUFSIZ, _ => 0)
  type Readings = s: seq<Reading> | |s| == BBUFSIZ witness seq(BBUFSIZ, _ => 0)

  /** The bytes read after a SOH. */
  datatype Packet = Packet(sect: Reading, comp: Reading, data: Readings, check: Reading)

  /** What the wait for the first character of a packet ends with. */
  datatype Incoming = Silence | EndOfText | Soh(p: Packet)

  /** The running checksum: a sum kept to eight bits. */
  function Checksum(s: seq<Reading>): (sum: Byte) {
    if s == [] then 0 else (Checksum(s[..|s| - 1]) + s[|s| - 1]) % 256
  }

  /** The packet sfile transmits for its n-th block: number and complement are one byte each. */
  function MakePacket(n: nat, b: Block): (r: Packet) {
    Packet(n % 256, (-1 - n) % 256, b, Checksum(b))
  }

  /** Damage the receiver can notice: the header no longer adds up, or the header came
      through and the checksum does not match. */
  predicate DetectablyDamaged(sent: Packet, got: Packet) {
    || got.sect + got.comp != 255
    || (got.sect == sent.sect && got.comp == sent.comp && Checksum(got.data) != got.check)
  }

  // ---------------------------------------------------------------- receiver

  datatype RStatus = Receiving | Complete | TooManyErrors | FatalError

  /** The variables of rfile.  `written` has one entry for each call of write. */
  datatype RState = RState(sectnum: Byte, errors: nat, nlflag: bool, recfin: bool,
                           written: seq<seq<Byte>>, status: RStatus)

  const RInit := RState(0, 0, false, false, [], Receiving)

  /** One character of the data loop; `out` is what buff holds below bufctr. */
  datatype Unpacked = Unpacked(out: seq<Byte>, nlflag: bool, recfin: bool)

  function UnpackChar(u: Unpacked, c: Reading, last: bool): (r: Unpacked) {
    var heldCr := u.nlflag && c != LF;
    var out := if heldCr then u.out + [CR] else u.out;
    if last && c == CR then
      Unpacked(out, true, u.recfin)
    else if c == LF && out != [] && out[|out| - 1] == CR then
      Unpacked(out[|out| - 1 := LF], false, u.recfin)
    else if c == CTRLZ then
      Unpacked(out, false, true)
    else if u.recfin then
      Unpacked(out, false, true)
    else
      Unpacked(out + [c % 256], false, false)
  }

  /** The first k characters of a packet in text mode. */
  function UnpackText(u: Unpacked, data: Readings, k: nat): (r: Unpacked)
    requires k <= BBUFSIZ
  {
    if k == 0 then u else UnpackChar(UnpackText(u, data, k - 1), data[k - 1], k == BBUFSIZ)
  }

  function Stored(data: seq<Reading>): (s: seq<Byte>)
    ensures |s| == |data|
  {
    seq(|data|, i requires 0 <= i < |data| => data[i] % 256)
  }

  function Unpack(tmode: bool, nlflag: bool, recfin: bool, data: Readings): (r: Unpacked) {
    if tmode then UnpackText(Unpacked([], nlflag, recfin), data, BBUFSIZ)
    else Unpacked(Stored(data), nlflag, recfin)
  }

  /** errors++, then NAK; the loop ends when the error count reaches its limit. */
  function Reject(r: RState): (result: RState) {
    r.(errors := r.errors + 1, status := if r.errors + 1 == ERRORMAX then TooManyErrors else r.status)
  }

  /** One turn of the receiver's loop: its new variables and the bytes it sends. */
  function Receive(r: RState, tmode: bool, ev: Incoming): (result: (RState, seq<Reading>)) {
    match ev
    case Silence => (Reject(r), [NAK])
    case EndOfText =>
      if r.errors < ERRORMAX then (r.(status := Complete), [ACK]) else (r.(status := TooManyErrors), [])
    case Soh(p) =>
      if p.sect + p.comp != 255 then
        (Reject(r), [NAK])
      else if p.sect == (r.sectnum + 1) % 256 then
        var u := Unpack(tmode, r.nlflag, r.recfin, p.data);
        var r1 := r.(nlflag := u.nlflag, recfin := u.recfin);
        if Checksum(p.data) == p.check then
          (r1.(errors := 0, sectnum := p.sect, written := r.written + [u.out]), [ACK])
        else
          (Reject(r1), [NAK])
      else if p.sect == r.sectnum % 256 then
        (r, [ACK])
      else
        (r.(errors := r.errors + 1,
            status := if r.errors + 1 == ERRORMAX then TooManyErrors else FatalError), [CAN, NAK])
  }

  // ---------------------------------------------------------------- sender

  datatype SStatus = Syncing | Sending | Ending | Succeeded | Failed

  /** The variables of sfile: `n` is the number of the block in the buffer. */
  datatype SState = SState(n: nat, attempts: nat, status: SStatus)

  const SInit := SState(1, 0, Syncing)

  predicate Halted(s: SState) { s.status == Succeeded || s.status == Failed }

  /** What goes out on the line: block number k as a packet, or the end marker, which
      is written as number total + 1. */
  function Present(n: nat, total: nat): (r: (SState, seq<nat>)) {
    if n <= total then (SState(n, 1, Sending), [n]) else (SState(n, 0, Ending), [n])
  }

  /** The sender has read x while waiting: its new variables and what it transmits next. */
  function Hear(s: SState, total: nat, x: Reading): (r: (SState, seq<nat>)) {
    match s.status
    case Syncing =>
      if x == NAK then Present(1, total)
      else if s.attempts + 1 > RETRYMAX then (s.(attempts := s.attempts + 1, status := Failed), [])
      else (s.(attempts := s.attempts + 1), [])
    case Sending =>
      if x == CAN then (s.(status := Failed), [])
      else if s.attempts == RETRYMAX then (s.(status := Failed), [])
      else if x == ACK then Present(s.n + 1, total)
      else (s.(attempts := s.attempts + 1), [s.n])
    case Ending =>
      if x == ACK then
        (s.(status := if s.attempts >= RETRYMAX then Failed else Succeeded), [])
      else if s.attempts < RETRYMAX then (s.(attempts := s.attempts + 1), [s.n])
      else (s.(attempts := s.attempts + 1, status := Failed), [])
    case _ => (s, [])
  }

  // ---------------------------------------------------------------- blocks of a file

  /** A line feed becomes CR LF. */
  function ExpandChar(c: Byte): (r: seq<Byte>) { if c == LF then [CR, LF] else [c] }

  function Expand(f: seq<Byte>): (r: seq<Byte>) {
    if f == [] then [] else ExpandChar(f[0]) + Expand(f[1..])
  }

  function CtrlZs(n: nat): (s: seq<Byte>) { seq(n, _ => CTRLZ) }

  /** The blocks made of the characters p when the buffer holds `stale`: a short block
      is padded with Ctrl-Z in text mode and with what was in the buffer otherwise. */
  function Blocks(tmode: bool, c28: bool, p: seq<Byte>, stale: Block): (r: seq<Block>)
    decreases |p|
  {
    if |p| >= BBUFSIZ then [p[..BBUFSIZ]] + Blocks(tmode, c28, p[BBUFSIZ..], p[..BBUFSIZ])
    else if p == [] && c28 && !tmode then []
    else [p + if tmode then CtrlZs(BBUFSIZ - |p|) else stale[|p|..]]
  }

  /** All the packets of a file. */
  function FileBlocks(tmode: bool, c28: bool, file: seq<Byte>, stale: Block): (r: seq<Block>) {
    Blocks(tmode, c28, if tmode then Expand(file) else file, stale)
  }
}
