/** btoa and atob: four bytes as five printable characters, between a header and a trailer
    of counts and checksums.  What the two programs compute, as functions. */
module Base85 {
  import opened Basics

  const MAXPERLINE := 78

  // ------------------------------------------------------------ checksums

  /** The three checksums both programs keep over the bytes they handle. */
  datatype Checks = Checks(eor: Byte, sum: DWord, rot: DWord)

  /** Exclusive or of the low bits. */
  function XorBits(a: nat, b: nat, bits: nat): (x: nat)
    ensures bits <= 8 ==> x < if bits == 8 then 256 else if bits == 7 then 128 else if bits == 6 then 64
      else if bits == 5 then 32 else if bits == 4 then 16
      else if bits == 3 then 8 else if bits == 2 then 4 else bits + 1
  {
    if bits == 0 then 0 else 2 * XorBits(a / 2, b / 2, bits - 1) + (a + b) % 2
  }

  function Xor(a: Byte, b: Byte): (r: Byte) { XorBits(a, b, 8) }

  function RotateAdd(rot: DWord, c: Byte): (r: DWord) {
    ((if rot >= 0x8000_0000 then 2 * rot % 0x1_0000_0000 + 1 else 2 * rot) + c) % 0x1_0000_0000
  }

  function CheckByte(k: Checks, c: Byte): (r: Checks) {
    Checks(Xor(k.eor, c), (k.sum + c + 1) % 0x1_0000_0000, RotateAdd(k.rot, c))
  }

  function CheckAll(bytes: seq<Byte>): (r: Checks) {
    if bytes == [] then Checks(0, 0, 0) else CheckByte(CheckAll(bytes[..|bytes| - 1]), bytes[|bytes| - 1])
  }

  // ------------------------------------------------------------ groups

  /** Bytes as a number, most significant first. */
  function Number(bytes: seq<Byte>): (n: nat)
    ensures n < Pow256(|bytes|)
  {
    if bytes == [] then 0 else 256 * Number(bytes[..|bytes| - 1]) + bytes[|bytes| - 1]
  }

  function Pow256(k: nat): (p: nat)
    ensures p > 0
  {
    if k == 0 then 1 else 256 * Pow256(k - 1)
  }

  function En(d: int): (r: char)
    requires 0 <= d < 85
  {
    (d + 32) as char
  }

  /** The characters for one 32-bit word. */
  function Group(w: DWord): (g: string)
    ensures |g| == if w == 0 then 1 else 5
  {
    if w == 0 then "z"
    else [En(w / 52200625), En(w % 52200625 / 614125), En(w % 614125 / 7225), En(w % 7225 / 85), En(w % 85)]
  }

  function WordOf(bytes: seq<Byte>): (w: DWord)
    requires |bytes| == 4
  {
    assert Pow256(4) == 0x1_0000_0000;
    Number(bytes)
  }

  /** All complete groups of four. */
  function Body(bytes: seq<Byte>): (r: string)
    requires |bytes| % 4 == 0
  {
    if bytes == [] then ""
    else Body(bytes[..|bytes| - 4]) + Group(WordOf(bytes[|bytes| - 4..]))
  }

  /** Zeros up to a multiple of four. */
  function Padded(bytes: seq<Byte>): (p: seq<Byte>)
    ensures |p| % 4 == 0 && bytes <= p && |p| < |bytes| + 4
    ensures forall i :: |bytes| <= i < |p| ==> p[i] == 0
  {
    bytes + seq((4 - |bytes| % 4) % 4, i => 0)
  }

  /** Characters broken into lines of MAXPERLINE. */
  function Wrapped(s: string): (r: string) {
    if s == "" then ""
    else Wrapped(s[..|s| - 1]) + [s[|s| - 1]] + (if |s| % MAXPERLINE == 0 then "\n" else "")
  }

  // ------------------------------------------------------------ numbers in the trailer

  function Digit(d: int): (r: char)
    requires 0 <= d < 16
  {
    if d < 10 then (d + 48) as char else (d + 87) as char
  }

  /** printf's %d and %x of a number that is not negative. */
  function Printed(n: nat, base: nat): (s: string)
    requires 2 <= base <= 16
    ensures s != ""
    decreases n
  {
    if n < base then [Digit(n)] else Printed(n / base, base) + [Digit(n % base)]
  }

  function DigitValue(c: char): (r: int) {
    if '0' <= c <= '9' then c as int - 48
    else if 'a' <= c <= 'f' then c as int - 87
    else if 'A' <= c <= 'F' then c as int - 55
    else 99
  }

  predicate Blank(c: char) { c == ' ' || c == '\n' || c == '\t' || c == '\r' }

  function SkipBlanks(s: string): (r: string) {
    if s != "" && Blank(s[0]) then SkipBlanks(s[1..]) else s
  }

  /** The digits a conversion takes, its value and what follows. */
  function ScanDigits(s: string, base: nat, value: nat): (r: (nat, string)) {
    if s != "" && DigitValue(s[0]) < base then ScanDigits(s[1..], base, value * base + DigitValue(s[0])) else (value, s)
  }

  /** A numeric conversion of scanf into a 32-bit int. */
  function ScanNumber(s: string, base: nat): (r: Option<(DWord, string)>) {
    var t := SkipBlanks(s);
    if t == "" || DigitValue(t[0]) >= base then None
    else var r := ScanDigits(t, base, 0); Some((r.0 % 0x1_0000_0000, r.1))
  }

  /** A literal of scanf's format: a blank in it takes any number of blanks. */
  function ScanLiteral(s: string, format: string): (r: Option<string>)
    decreases |format|
  {
    if format == "" then Some(s)
    else if Blank(format[0]) then ScanLiteral(SkipBlanks(s), format[1..])
    else if s != "" && s[0] == format[0] then ScanLiteral(s[1..], format[1..])
    else None
  }

  /** The trailer's fields: what comes before each number, and its base. */
  datatype Format = Format(literal: string, base: nat)

  predicate GoodFormat(f: Format) {
    (f.base == 10 || f.base == 16)
        && forall i :: 0 <= i < |f.literal| - 1 && Blank(f.literal[i]) ==> !Blank(f.literal[i + 1])
  }

  function Formats(): (fs: seq<Format>)
    ensures |fs| == 5 && forall i :: 0 <= i < 5 ==> GoodFormat(fs[i])
  {
    [Format("btoa End N ", 10), Format(" ", 16), Format(" E ", 16), Format(" S ", 16), Format(" R ", 16)]
  }

  /** scanf: all the fields or none. */
  function ScanFields(s: string, fs: seq<Format>): (r: Option<seq<DWord>>)
    ensures r.Some? ==> |r.value| == |fs|
    decreases |fs|
  {
    if fs == [] then Some([])
    else match ScanField(s, fs[0])
         case None => None
         case Some((n, rest)) => match ScanFields(rest, fs[1..]) case None => None case Some(ns) => Some([n] + ns)
  }

  function ScanField(s: string, f: Format): (r: Option<(DWord, string)>) {
    match ScanLiteral(s, f.literal) case None => None case Some(t) => ScanNumber(t, f.base)
  }

  /** printf of the fields, then a line break. */
  function PrintFields(fs: seq<Format>, ns: seq<DWord>): (r: string)
    requires |fs| == |ns| && forall i :: 0 <= i < |fs| ==> GoodFormat(fs[i])
  {
    if fs == [] then "\n"
    else assert GoodFormat(fs[0]); fs[0].literal + (Printed(ns[0], fs[0].base) + PrintFields(fs[1..], ns[1..]))
  }

  /** The numbers of the trailer: the count twice, and the checksums. */
  function Numbers(n: DWord, k: Checks): (ns: seq<DWord>)
    ensures |ns| == 5
  {
    [n, n, k.eor, k.sum, k.rot]
  }

  // ------------------------------------------------------------ the programs

  const HEADER := "xbtoa Begin\n"

  /** Everything btoa writes for these bytes. */
  function Btoa(bytes: seq<Byte>): (r: string)
    requires |bytes| < 0x8000_0000
  {
    HEADER + Wrapped(Body(Padded(bytes))) + "\nx" + Trailer(bytes)
  }

  function Trailer(bytes: seq<Byte>): (r: string)
    requires |bytes| < 0x8000_0000
  {
    PrintFields(Formats(), Numbers(|bytes|, CheckAll(Padded(bytes))))
  }

  /** The decoder's state: the number being built, its digits so far, the bytes written. */
  datatype DState = DState(word: DWord, bcount: nat, bytes: seq<Byte>)

  function FourBytes(w: DWord): (b: seq<Byte>)
    ensures |b| == 4
  {
    [w / 0x100_0000, w / 0x1_0000 % 0x100, w / 0x100 % 0x100, w % 0x100]
  }

  /** One character of data; None when it makes the program give up. */
  function DecodeChar(d: DState, c: char): (r: Option<DState>) {
    if c == 'z' then
      if d.bcount != 0 then None else Some(d.(bytes := d.bytes + [0, 0, 0, 0]))
    else if ' ' <= c < 'u' then
      var v := c as int - 32;
      if d.bcount == 0 then Some(d.(word := v, bcount := 1))
      else
        var w := (d.word * 85 + v) % 0x1_0000_0000;
        if d.bcount < 4 then Some(d.(word := w, bcount := d.bcount + 1))
        else Some(DState(0, 0, d.bytes + FourBytes(w)))
    else None
  }

  /** The data lines, up to the x: the decoder then and what follows, None when it gave up. */
  function ReadData(s: string, d: DState): (r: Option<(DState, string)>) {
    if s == "" then Some((d, ""))
    else if s[0] == '\n' then ReadData(s[1..], d)
    else if s[0] == 'x' then Some((d, s[1..]))
    else match DecodeChar(d, s[0]) case None => None case Some(d') => ReadData(s[1..], d')
  }

  /** fgets: a line, of at most 99 characters. */
  function LineLength(s: string, k: nat): (n: nat)
    requires k <= |s|
    ensures k <= n <= |s| && (k < |s| && k < 99 ==> n > k)
    decreases |s| - k
  {
    if k == |s| || k >= 99 then k else if s[k] == '\n' then k + 1 else LineLength(s, k + 1)
  }

  /** What follows the header line. */
  function AfterHeader(s: string): (r: Option<string>)
    decreases |s|
  {
    if s == "" then None
    else
      var n := LineLength(s, 0);
      if s[..n] == HEADER then Some(s[n..]) else AfterHeader(s[n..])
  }

  /** The first n bytes of the temporary file, n a 32-bit int; past its end getc gives 255. */
  function FirstBytes(bytes: seq<Byte>, n: DWord): (r: seq<Byte>) {
    if n >= 0x8000_0000 then [] else seq(n, i requires 0 <= i => if i < |bytes| then bytes[i] else 255)
  }

  /** The end of atob: the counts agree, the checksums are those of the bytes decoded. */
  function Checked(bytes: seq<Byte>, trailer: string): (r: Option<seq<Byte>>) {
    match ScanFields(trailer, Formats())
    case None => None
    case Some(ns) =>
      if ns[0] == ns[1] && ns == Numbers(ns[0], CheckAll(bytes)) then Some(FirstBytes(bytes, ns[0])) else None
  }

  /** What atob writes, or None when it finds a bad format. */
  function Atob(s: string): (r: Option<seq<Byte>>) {
    match AfterHeader(s)
    case None => None
    case Some(t) => match ReadData(t, DState(0, 0, [])) case None => None case Some((d, u)) => Checked(d.bytes, u)
  }
}
