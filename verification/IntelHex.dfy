/** Intel HEX images: a reader that follows sections 3 and 5 of the Intel Hexadecimal Object File
    Format Specification, Rev. A, and the printer of the provisioning tool. */
module IntelHex {
  import opened Bytes
  import opened Wrappers

  type u16 = x: int | 0 <= x < 0x1_0000

  const SPACE := 0x1_0000_0000

  const DATA: byte := 0
  const END: byte := 1
  const LINEAR: byte := 4

  datatype HexRecord = HexRecord(address: u16, kind: byte, data: Bytes)

  /** What a reader has loaded so far, by absolute address. */
  type Memory = map<nat, byte>

  datatype Loader = Loader(base: nat, memory: Memory)

  // ----- Reading -----

  function HexValue(c: char): Option<nat> {
    if '0' <= c <= '9' then Some(c as int - '0' as int)
    else if 'A' <= c <= 'F' then Some(c as int - 'A' as int + 10)
    else None
  }

  function Unhex(t: string): Option<Bytes> {
    if t == "" then Some([])
    else if |t| == 1 then None
    else
      match (HexValue(t[0]), HexValue(t[1]), Unhex(t[2..]))
      case (Some(a), Some(b), Some(rest)) => if 16 * a + b < 256 then Some([16 * a + b] + rest) else None
      case _ => None
  }

  function Sum(s: Bytes): nat {
    if s == [] then 0 else Sum(s[..|s| - 1]) + s[|s| - 1]
  }

  /** A line without its line end: mark, length, load offset, type, data, checksum. */
  function ReadLine(line: string): Option<HexRecord> {
    if line == "" || line[0] != ':' then None
    else
      match Unhex(line[1..])
      case None => None
      case Some(raw) =>
        if |raw| < 5 || raw[0] as int != |raw| - 5 || Sum(raw) % 256 != 0 then None
        else Some(HexRecord(raw[1] as int * 256 + raw[2], raw[3], raw[4..|raw| - 1]))
  }

  function LineEnd(text: string): (n: nat)
    ensures n <= |text| && (n < |text| ==> text[n] == '\n')
  {
    if text == "" || text[0] == '\n' then 0 else 1 + LineEnd(text[1..])
  }

  function ReadText(text: string): Option<seq<HexRecord>> {
    if text == "" then Some([])
    else
      var n := LineEnd(text);
      if n == |text| then None
      else
        match (ReadLine(text[..n]), ReadText(text[n + 1..]))
        case (Some(r), Some(rest)) => Some([r] + rest)
        case _ => None
  }

  /** Load octets from address `at` on; addresses are 32 bits wide. */
  function Put(memory: Memory, at: nat, data: Bytes): Memory {
    if data == [] then memory
    else
      var n := |data| - 1;
      Put(memory, at, data[..n])[(at + n) % SPACE := data[n]]
  }

  /** A data record goes to the linear base address plus its load offset; a linear address record
      sets the upper half of that base. */
  function Apply(s: Loader, r: HexRecord): Option<Loader> {
    if r.kind == DATA then Some(s.(memory := Put(s.memory, s.base + r.address, r.data)))
    else if r.kind == LINEAR && |r.data| == 2 then Some(s.(base := (r.data[0] as int * 256 + r.data[1]) * 0x1_0000))
    else None
  }

  function Run(rs: seq<HexRecord>): Option<Loader> {
    if rs == [] then Some(Loader(0, map[]))
    else
      match Run(rs[..|rs| - 1])
      case None => None
      case Some(s) => Apply(s, rs[|rs| - 1])
  }

  /** The memory that an image describes; its last record, and only that, must be the end. */
  function Decode(text: string): Option<Memory> {
    match ReadText(text)
    case None => None
    case Some(rs) =>
      if rs == [] || rs[|rs| - 1].kind != END || rs[|rs| - 1].data != [] then None
      else
        match Run(rs[..|rs| - 1])
        case None => None
        case Some(s) => Some(s.memory)
  }

  // ----- Printing -----

  function HexDigit(d: nat): (c: char)
    requires d < 16
    ensures HexValue(c) == Some(d) && c != '\n'
  {
    "0123456789ABCDEF"[d]
  }

  function Hex(s: Bytes): string {
    if s == [] then "" else [HexDigit(s[0] / 16), HexDigit(s[0] % 16)] + Hex(s[1..])
  }

  function Raw(r: HexRecord): Bytes
    requires |r.data| < 256
  {
    [|r.data|] + [r.address / 256, r.address % 256] + [r.kind] + r.data
  }

  function Checksum(raw: Bytes): byte {
    -(Sum(raw) as int) % 256
  }

  function Line(r: HexRecord): string
    requires |r.data| < 256
  {
    ":" + Hex(Raw(r) + [Checksum(Raw(r))]) + "\n"
  }

  predicate Printable(rs: seq<HexRecord>) {
    forall i | 0 <= i < |rs| :: |rs[i].data| < 256
  }

  function Print(rs: seq<HexRecord>): string
    requires Printable(rs)
  {
    if rs == [] then "" else Print(rs[..|rs| - 1]) + Line(rs[|rs| - 1])
  }

  // ----- Reading back what was printed -----

  lemma {:induction false} UnhexOctet(b: byte, rest: string, out: Bytes)
    requires Unhex(rest) == Some(out)
    ensures Unhex([HexDigit(b / 16), HexDigit(b % 16)] + rest) == Some([b] + out)
  {
    var t := [HexDigit(b / 16), HexDigit(b % 16)] + rest;
    assert t[2..] == rest;
  }

  lemma {:induction false} UnhexHex(s: Bytes)
    ensures Unhex(Hex(s)) == Some(s)
    ensures '\n' !in Hex(s)
  {
    if s != [] {
      UnhexHex(s[1..]);
      UnhexOctet(s[0], Hex(s[1..]), s[1..]);
      assert [s[0]] + s[1..] == s;
    }
  }

  lemma {:induction false} ReadPrinted(r: HexRecord)
    requires |r.data| < 256
    ensures Line(r) != "" && ReadLine(Line(r)[..|Line(r)| - 1]) == Some(r)
    ensures '\n' !in Line(r)[..|Line(r)| - 1]
  {
    var all := Raw(r) + [Checksum(Raw(r))];
    UnhexHex(all);
    RawIsRead(r, all);
    LineIsRead(r, Hex(all), all);
    assert Line(r)[..|Line(r)| - 1] == ":" + Hex(all);
  }

  /** A line whose octets pass the checks is read. */
  lemma {:induction false} LineIsRead(r: HexRecord, hex: string, all: Bytes)
    requires Unhex(hex) == Some(all) && |all| >= 5 && all[0] as int == |all| - 5 && Sum(all) % 256 == 0
    requires all[1] as int * 256 + all[2] == r.address && all[3] == r.kind && all[4..|all| - 1] == r.data
    ensures ReadLine(":" + hex) == Some(r)
  {
    assert (":" + hex)[1..] == hex;
  }

  lemma {:induction false} SumCloses(raw: Bytes)
    ensures Sum(raw + [Checksum(raw)]) % 256 == 0
  {
    assert (raw + [Checksum(raw)])[..|raw|] == raw;
  }

  /** The octets of a record pass the checks of a reader, and yield the record. */
  lemma {:induction false} RawIsRead(r: HexRecord, all: Bytes)
    requires |r.data| < 256 && all == Raw(r) + [Checksum(Raw(r))]
    ensures |all| >= 5 && all[0] as int == |all| - 5 && Sum(all) % 256 == 0
    ensures all[1] as int * 256 + all[2] == r.address && all[3] == r.kind && all[4..|all| - 1] == r.data
  {
    SumCloses(Raw(r));
    assert all[1] == r.address / 256 && all[2] == r.address % 256;
  }

  // ----- What the checksum catches -----

  lemma {:induction false} SumChanges(s: Bytes, i: nat, b: byte)
    requires i < |s|
    ensures Sum(s[i := b]) == Sum(s) - s[i] as int + b as int
  {
    var n := |s| - 1;
    if i < n {
      SumChanges(s[..n], i, b);
      assert s[i := b][..n] == s[..n][i := b];
    } else {
      assert s[i := b][..n] == s[..n];
    }
  }

  lemma {:induction false} NoMultiple(q: int, d: int)
    requires 0 < d < 256 || -256 < d < 0
    ensures (256 * q + d) % 256 != 0
  {
    assert (256 * q + d) % 256 == if d > 0 then d else 256 + d;
  }

  lemma {:induction false} ChangedSum(all: Bytes, i: nat, b: byte)
    requires i < |all| && b != all[i] && Sum(all) % 256 == 0
    ensures Sum(all[i := b]) % 256 != 0
  {
    var d := b as int - all[i] as int;
    SumChanges(all, i, b);
    NoMultiple(Sum(all) / 256, d);
    assert Sum(all[i := b]) == 256 * (Sum(all) / 256) + d;
  }

  lemma {:induction false} BadSumIsRefused(hex: string, raw: Bytes)
    requires Unhex(hex) == Some(raw) && Sum(raw) % 256 != 0
    ensures ReadLine(":" + hex) == None
  {
    assert (":" + hex)[1..] == hex;
  }

  /** A printed line in which one octet has been replaced by another, whichever they are, is refused. */
  lemma {:induction false} CorruptedIsRefused(r: HexRecord, i: nat, b: byte)
    requires |r.data| < 256 && i < |Raw(r)| + 1
    requires var all := Raw(r) + [Checksum(Raw(r))]; b != all[i]
    ensures var all := Raw(r) + [Checksum(Raw(r))];
            Line(r) == ":" + Hex(all) + "\n" && ReadLine(":" + Hex(all[i := b])) == None
  {
    var all := Raw(r) + [Checksum(Raw(r))];
    SumCloses(Raw(r));
    ChangedSum(all, i, b);
    UnhexHex(all[i := b]);
    BadSumIsRefused(Hex(all[i := b]), all[i := b]);
  }

  lemma {:induction false} SumOfFour(a: byte, b: byte, c: byte, d: byte)
    ensures Sum([a, b, c, d]) == a as int + b as int + c as int + d as int
  {
    assert [a, b, c, d][..3] == [a, b, c] && [a, b, c][..2] == [a, b] && [a, b][..1] == [a] && [a][..0] == [];
    assert Sum([a]) == a as int;
    assert Sum([a, b]) == Sum([a]) + b as int;
    assert Sum([a, b, c]) == Sum([a, b]) + c as int;
  }

  lemma {:induction false} HexFirst(b: byte, rest: Bytes)
    ensures Hex([b] + rest) == [HexDigit(b / 16), HexDigit(b % 16)] + Hex(rest)
  {
    assert ([b] + rest)[1..] == rest;
  }

  lemma {:induction false} HexOfFive(a: byte, b: byte, c: byte, d: byte, e: byte)
    ensures Hex([a, b, c, d, e])
            == [HexDigit(a / 16), HexDigit(a % 16), HexDigit(b / 16), HexDigit(b % 16), HexDigit(c / 16), HexDigit(c % 16),
                HexDigit(d / 16), HexDigit(d % 16), HexDigit(e / 16), HexDigit(e % 16)]
  {
    HexFirst(e, []);
    HexFirst(d, [e]);
    HexFirst(c, [d, e]);
    HexFirst(b, [c, d, e]);
    HexFirst(a, [b, c, d, e]);
    assert [e] + [] == [e] && [d] + [e] == [d, e] && [c] + [d, e] == [c, d, e];
    assert [b] + [c, d, e] == [b, c, d, e] && [a] + [b, c, d, e] == [a, b, c, d, e];
  }

  /** The last line of every image. */
  lemma {:induction false} EndLine()
    ensures Line(HexRecord(0, END, [])) == ":00000001FF\n"
  {
    var raw := Raw(HexRecord(0, END, []));
    assert raw == [0, 0, 0, 1];
    SumOfFour(0, 0, 0, 1);
    assert raw + [Checksum(raw)] == [0, 0, 0, 1, 255];
    HexOfFive(0, 0, 0, 1, 255);
  }

  lemma {:induction false} SumLast(s: Bytes, b: byte)
    ensures Sum(s + [b]) == Sum(s) + b as int
  {
    assert (s + [b])[..|s|] == s;
  }

  /** The line that takes a reader to the start of flash. */
  lemma {:induction false} FlashLine()
    ensures Line(HexRecord(0, LINEAR, [8, 0])) == ":020000040800F2\n"
  {
    FlashOctets();
    HexFirst(2, [0] + [0, 4, 8, 0, 0xF2]);
    HexFirst(0, [0, 4, 8, 0, 0xF2]);
    HexOfFive(0, 4, 8, 0, 0xF2);
  }

  lemma {:induction false} FlashOctets()
    ensures var raw := Raw(HexRecord(0, LINEAR, [8, 0]));
            raw + [Checksum(raw)] == [2] + ([0] + [0, 4, 8, 0, 0xF2])
  {
    var raw := Raw(HexRecord(0, LINEAR, [8, 0]));
    assert raw == [2, 0, 0, 4] + [8] + [0];
    SumOfFour(2, 0, 0, 4);
    SumLast([2, 0, 0, 4], 8);
    SumLast([2, 0, 0, 4] + [8], 0);
  }

  /** The data records behind it are loaded from there on. */
  lemma {:induction false} FlashIsLoaded(address: u16, b: byte)
    ensures Run([HexRecord(0, LINEAR, [8, 0]), HexRecord(address, DATA, [b])])
            == Some(Loader(0x0800_0000, map[0x0800_0000 + address := b]))
  {
    var (base, data) := (HexRecord(0, LINEAR, [8, 0]), HexRecord(address, DATA, [b]));
    assert [base, data][..1] == [base] && [base][..0] == [];
    assert Run([base]) == Some(Loader(0x0800_0000, map[]));
    assert [b][..0] == [];
    assert Put(map[], 0x0800_0000 + address, [b]) == map[0x0800_0000 + address := b];
  }

  lemma {:induction false} LineEndIs(line: string, rest: string)
    requires '\n' !in line
    ensures LineEnd(line + "\n" + rest) == |line|
  {
    var text := line + "\n" + rest;
    if line != "" {
      LineEndIs(line[1..], rest);
      assert text[1..] == line[1..] + "\n" + rest;
    }
  }

  lemma {:induction false} ReadFirst(r: HexRecord, rest: string, rs: seq<HexRecord>)
    requires |r.data| < 256 && ReadText(rest) == Some(rs)
    ensures ReadText(Line(r) + rest) == Some([r] + rs)
  {
    var text := Line(r) + rest;
    var line := Line(r)[..|Line(r)| - 1];
    ReadPrinted(r);
    assert Line(r) == line + "\n";
    LineEndIs(line, rest);
    assert text == line + "\n" + rest;
    assert text[..|line|] == line && text[|line| + 1..] == rest;
  }

  lemma {:induction false} ReadPrint(rs: seq<HexRecord>, rest: string, more: seq<HexRecord>)
    requires Printable(rs) && ReadText(rest) == Some(more)
    ensures ReadText(Print(rs) + rest) == Some(rs + more)
    decreases |rs|
  {
    if rs == [] {
      assert Print(rs) + rest == rest && rs + more == more;
    } else {
      var (n, text) := (|rs| - 1, Print(rs) + rest);
      var tail := Line(rs[n]) + rest;
      ReadFirst(rs[n], rest, more);
      ReadPrint(rs[..n], tail, [rs[n]] + more);
      PrintLast(rs, rest);
      assert text == Print(rs[..n]) + tail;
      MoveLast(rs, more);
      assert ReadText(text) == Some(rs + more);
    }
  }

  lemma {:induction false} MoveLast<T>(s: seq<T>, more: seq<T>)
    requires s != []
    ensures s + more == s[..|s| - 1] + ([s[|s| - 1]] + more)
  {
  }

  lemma {:induction false} PrintLast(rs: seq<HexRecord>, rest: string)
    requires Printable(rs) && rs != []
    ensures var n := |rs| - 1;
            Print(rs) + rest == Print(rs[..n]) + (Line(rs[n]) + rest)
  {
  }

  /** A printed image followed by the end record is read as what its records load. */
  lemma {:induction false} DecodePrinted(rs: seq<HexRecord>)
    requires Printable(rs) && Run(rs).Some?
    ensures Decode(Print(rs) + Line(HexRecord(0, END, []))) == Some(Run(rs).value.memory)
  {
    var e := HexRecord(0, END, []);
    ReadFirst(e, "", []);
    assert Line(e) + "" == Line(e) && [e] + [] == [e];
    ReadPrint(rs, Line(e), [e]);
    assert (rs + [e])[..|rs|] == rs;
  }
}
