/**
 The initramfs walker of kernel/fs/ramfs.c, over the "ustar Interchange
 Format" of POSIX.1-2017, and an encoder that it inverts. Memory is the first
 4 GiB of the address space, as the walker keeps addresses in 32 bits.
 */
module Ramfs {
  import opened CTypes
  import opened Numerals

  const RECORD: nat := 512
  const SIZE_FIELD: nat := 124
  const SIZE_DIGITS: nat := 11
  const MAX_HEADERS: nat := 32

  // ------------------------------------------------------------ octal sizes

  /** A byte as a (signed) `char`, less '0'. */
  function OctalDigit(b: byte): int {
    Signed(b, 0x100) - 0x30
  }

  ghost function OctalDigits(field: seq<byte>): (r: seq<int>) {
    seq(|field|, i requires 0 <= i < |field| => OctalDigit(field[i]))
  }

  /** The octal number in the field, read left to right, in 32-bit unsigned arithmetic. */
  ghost function OctalValue(field: seq<byte>): uint32 {
    Value(OctalDigits(field), 8) % TWO32
  }

  /** Reads right to left, with a growing (and finally wrapping) place value. */
  method GetSize(memory: seq<byte>, start: nat) returns (size: uint32)
    requires start + SIZE_DIGITS <= |memory|
    ensures size == OctalValue(memory[start..start + SIZE_DIGITS])
  {
    ghost var field := memory[start..start + SIZE_DIGITS];
    size := 0;
    var j, count := SIZE_DIGITS, 1;
    while j > 0
      invariant 0 <= j <= SIZE_DIGITS
      invariant count == Pow(8, SIZE_DIGITS - j) % TWO32
      invariant size == OctalValue(field[j..])
    {
      GetSizeStep(field, j);
      size := (size + OctalDigit(memory[start + j - 1]) * count) % TWO32;
      j := j - 1;
      count := count * 8 % TWO32;
    }
    assert field[0..] == field;
  }

  lemma GetSizeStep(field: seq<byte>, j: nat)
    requires 0 < j <= |field|
    ensures var n := |field| - j;
            && OctalValue(field[j - 1..])
               == (OctalValue(field[j..]) + OctalDigit(field[j - 1]) * (Pow(8, n) % TWO32)) % TWO32
            && Pow(8, n + 1) % TWO32 == (Pow(8, n) % TWO32) * 8 % TWO32
  {
    var rest, d, p := field[j..], OctalDigit(field[j - 1]), Pow(8, |field| - j);
    assert OctalDigits(field[j - 1..]) == [d] + OctalDigits(rest);
    ValuePrepend(d, OctalDigits(rest), 8);
    ModHorner(p, TWO32, 8, 0);
    ModHorner(p, TWO32, d, Value(OctalDigits(rest), 8));
    ModAdd(Value(OctalDigits(rest), 8), d * (p % TWO32), TWO32);
    assert (p % TWO32) * d == d * (p % TWO32) && p * d == d * p;
  }

  // ------------------------------------------------------------- the walker

  /** The address behind a member of the given size, in 32-bit unsigned arithmetic. */
  function NextHeader(address: uint32, size: uint32): uint32 {
    (address + (size / 512 + 1) * 512 + (if size % 512 != 0 then 512 else 0)) % TWO32
  }

  /**
   The header addresses the walker stores when it starts at address with room
   for `room` of them, the terminating one included. None: it would store one
   too many, or read outside memory.
   */
  ghost function Headers(memory: seq<byte>, address: uint32, room: nat): Option<seq<uint32>>
    decreases room
  {
    if room == 0 || address >= |memory| then None
    else if memory[address] == 0 then Some([address])
    else if address + SIZE_FIELD + SIZE_DIGITS > |memory| then None
    else
      var size := OctalValue(memory[address + SIZE_FIELD..address + SIZE_FIELD + SIZE_DIGITS]);
      match Headers(memory, NextHeader(address, size), room - 1)
      case None => None
      case Some(rest) => Some([address] + rest)
  }

  /** Stores the address of every header, and of the empty one that ends the archive. */
  method Parse(memory: seq<byte>, initramfs: uint64, headers: array<uint32>) returns (i: nat)
    requires headers.Length == MAX_HEADERS && Headers(memory, initramfs % TWO32, MAX_HEADERS).Some?
    modifies headers
    ensures var all := Headers(memory, initramfs % TWO32, MAX_HEADERS).value;
            i + 1 == |all| <= headers.Length && headers[..i + 1] == all
  {
    hide Headers, OctalValue, NextHeader;
    var address: int := initramfs % TWO32;
    ghost var all := Headers(memory, address, MAX_HEADERS).value;
    i := 0;
    while true
      invariant 0 <= i < MAX_HEADERS && 0 <= address < TWO32
      invariant Headers(memory, address, MAX_HEADERS - i).Some?
      invariant all == headers[..i] + Headers(memory, address, MAX_HEADERS - i).value
      decreases MAX_HEADERS - i
    {
      HeadersStep(memory, address, MAX_HEADERS - i);
      ghost var stored := headers[..i];
      headers[i] := address;
      assert headers[..i + 1] == stored + [address];
      if memory[address] == 0 {
        return;
      }
      var size: int := GetSize(memory, address + SIZE_FIELD);
      ghost var next := NextHeader(address, size);
      AddressStep(address, size);
      assert stored + ([address] + Headers(memory, next, MAX_HEADERS - i - 1).value)
          == headers[..i + 1] + Headers(memory, next, MAX_HEADERS - i - 1).value;
      address := UInt32(address + (size / 512 + 1) * 512);
      if size % 512 != 0 {
        address := UInt32(address + 512);
      }
      i := i + 1;
    }
  }

  lemma HeadersStep(memory: seq<byte>, address: uint32, room: nat)
    requires Headers(memory, address, room).Some?
    ensures room > 0 && address < |memory|
    ensures var all := Headers(memory, address, room).value;
            if memory[address] == 0 then all == [address]
            else
              && address + SIZE_FIELD + SIZE_DIGITS <= |memory|
              && var size := OctalValue(memory[address + SIZE_FIELD..address + SIZE_FIELD + SIZE_DIGITS]);
                 var rest := Headers(memory, NextHeader(address, size), room - 1);
                 rest.Some? && rest.value != [] && room > 1 && all == [address] + rest.value
  {
  }

  lemma AddressStep(address: uint32, size: uint32)
    ensures var a := UInt32(address + (size / 512 + 1) * 512);
            NextHeader(address, size) == if size % 512 != 0 then UInt32(a + 512) else a
  {
    ModAdd(address + (size / 512 + 1) * 512, 512, TWO32);
  }

  // --------------------------------------------------------------- archives

  /** A member: everything of its header but the name and the size is arbitrary. */
  datatype Member = Member(name: seq<byte>, info: seq<byte>, tail: seq<byte>, data: seq<byte>, padding: seq<byte>)

  /** The bytes that fill the last record of n bytes of data. */
  function PaddingLength(n: nat): nat {
    if n % 512 == 0 then 0 else 512 - n % 512
  }

  predicate IsMember(m: Member) {
    && 0 < |m.name| <= 100 && m.name[0] != 0
    && |m.info| == 24 && |m.tail| == 377
    && |m.data| < TWO32 && |m.padding| == PaddingLength(|m.data|)
  }

  function Ascii(s: string): (r: seq<byte>)
    ensures |r| == |s|
  {
    seq(|s|, i requires 0 <= i < |s| => s[i] as int % 0x100)
  }

  /** Eleven octal digits with leading zeros. */
  function OctalText(v: nat): string {
    var numeral := Numeral(v, 8);
    Repeat('0', SIZE_DIGITS - |numeral|) + numeral
  }

  function Encoded(m: Member): seq<byte>
    requires IsMember(m)
  {
    m.name + seq(100 - |m.name|, _ => 0) + m.info + Ascii(OctalText(|m.data|)) + m.tail + m.data + m.padding
  }

  function Archive(members: seq<Member>): seq<byte>
    requires forall m :: m in members ==> IsMember(m)
  {
    if members == [] then [] else Encoded(members[0]) + Archive(members[1..])
  }

  /** Where the headers lie when the archive is at address, and where it ends. */
  function Addresses(members: seq<Member>, address: nat): seq<nat>
    requires forall m :: m in members ==> IsMember(m)
  {
    if members == [] then [address]
    else [address] + Addresses(members[1..], address + |Encoded(members[0])|)
  }

  lemma OctalTextReads(v: nat)
    requires v < TWO32
    ensures |OctalText(v)| == SIZE_DIGITS && OctalValue(Ascii(OctalText(v))) == v
  {
    OctalDigitCount(v);
    OctalTextDenotes(v);
    hide Pow, Numeral, Value, OctalDigits, Ascii, Offsets;
    AsciiDigits(OctalText(v));
    ModUnique(v, TWO32, 0, v);
  }

  lemma OctalTextDenotes(v: nat)
    ensures Decimal(OctalText(v)) && Value(Offsets(OctalText(v)), 8) == v
  {
    hide Value, Numeral;
    var zeros, numeral := Repeat('0', SIZE_DIGITS - |Numeral(v, 8)|), Numeral(v, 8);
    NumeralDecimal(v, 8);
    DecimalOffsetsDenote(v, 8);
    assert Offsets(zeros + numeral) == Offsets(zeros) + Offsets(numeral);
    LeadingZeros(Offsets(zeros), Offsets(numeral), 8);
  }

  lemma OctalDigitCount(v: nat)
    requires v < TWO32
    ensures |Numeral(v, 8)| <= SIZE_DIGITS
  {
    PowConstants();
    hide Numeral, Pow;
    NumeralLength(v, 8, SIZE_DIGITS);
  }

  /** As bytes or as characters, decimal digits have the same values. */
  lemma AsciiDigits(s: string)
    requires Decimal(s)
    ensures OctalDigits(Ascii(s)) == Offsets(s)
  {
  }

  lemma EncodedLength(m: Member)
    requires IsMember(m)
    ensures |OctalText(|m.data|)| == SIZE_DIGITS
    ensures |Encoded(m)| == RECORD + |m.data| + |m.padding|
    ensures Encoded(m)[0] != 0
    ensures Encoded(m)[SIZE_FIELD..SIZE_FIELD + SIZE_DIGITS] == Ascii(OctalText(|m.data|))
    ensures Encoded(m)[RECORD..RECORD + |m.data|] == m.data
  {
    hide OctalText, Ascii;
    OctalTextReads(|m.data|);
    var name := m.name + seq(100 - |m.name|, _ => 0);
    var size := Ascii(OctalText(|m.data|));
    var front := name + m.info;
    assert Encoded(m) == front + size + (m.tail + m.data + m.padding);
    assert |front| == SIZE_FIELD;
    assert (front + size + m.tail + m.data + m.padding)[RECORD..RECORD + |m.data|] == m.data;
    assert Encoded(m)[0] == m.name[0];
  }

  /** The walker steps exactly over a member. */
  lemma NextIsBehind(address: uint32, n: uint32)
    requires address + RECORD + n + PaddingLength(n) < TWO32
    ensures NextHeader(address, n) == address + RECORD + n + PaddingLength(n)
  {
    assert n == 512 * (n / 512) + n % 512;
  }

  /** Where the parts of an encoded member lie: the name first, the size at 124, the data at 512, whole records of 512 bytes. */
  lemma HeaderLayout(m: Member)
    requires IsMember(m)
    ensures |Encoded(m)| % 512 == 0 && |Encoded(m)| == 512 + (|m.data| + 511) / 512 * 512
    ensures Encoded(m)[..|m.name|] == m.name && (forall i :: |m.name| <= i < 100 ==> Encoded(m)[i] == 0)
    ensures Encoded(m)[124..135] == Ascii(OctalText(|m.data|))
    ensures Encoded(m)[512..512 + |m.data|] == m.data
  {
    hide OctalText, Ascii;
    EncodedLength(m);
    RecordsOf(|m.data|);
    var name := m.name + seq(100 - |m.name|, _ => 0);
    assert Encoded(m)[..100] == name;
    assert Encoded(m)[..|m.name|] == name[..|m.name|];
    assert forall i :: |m.name| <= i < 100 ==> Encoded(m)[..100][i] == 0;
  }

  lemma RecordsOf(n: nat)
    ensures n + PaddingLength(n) == (n + 511) / 512 * 512
  {
  }

  /** Behind a header with the size n at 124 the next one lies a record and n bytes further, rounded up to whole records. */
  lemma WalkStep(memory: seq<byte>, address: uint32, room: nat, n: nat)
    requires room > 0 && address + 135 <= |memory| && memory[address] != 0
    requires n == OctalValue(memory[address + 124..address + 135]) && address + 512 + (n + 511) / 512 * 512 < TWO32
    ensures Headers(memory, address, room)
            == match Headers(memory, address + 512 + (n + 511) / 512 * 512, room - 1)
               case None => None
               case Some(rest) => Some([address] + rest)
  {
    hide OctalValue, NextHeader;
    RecordsOf(n);
    NextIsBehind(address, n);
  }

  /** Memory holds these bytes at address. */
  ghost predicate Holds(memory: seq<byte>, address: nat, bytes: seq<byte>) {
    address + |bytes| <= |memory| && memory[address..address + |bytes|] == bytes
  }

  lemma HoldsParts(memory: seq<byte>, address: nat, a: seq<byte>, b: seq<byte>)
    requires Holds(memory, address, a + b)
    ensures Holds(memory, address, a) && Holds(memory, address + |a|, b)
  {
    assert memory[address..address + |a|] == memory[address..address + |a| + |b|][..|a|];
    assert memory[address + |a|..address + |a| + |b|] == memory[address..address + |a| + |b|][|a|..];
  }

  lemma HoldsSlice(memory: seq<byte>, address: nat, bytes: seq<byte>, from: nat, to: nat)
    requires Holds(memory, address, bytes) && from <= to <= |bytes|
    ensures address + to <= |memory| && memory[address + from..address + to] == bytes[from..to]
  {
    assert bytes == bytes[..from] + (bytes[from..to] + bytes[to..]);
    HoldsParts(memory, address, bytes[..from], bytes[from..to] + bytes[to..]);
    HoldsParts(memory, address + from, bytes[from..to], bytes[to..]);
  }

  /** One header of an archive in memory, whatever its member's bytes look like. */
  lemma WalkMember(memory: seq<byte>, address: uint32, m: Member, room: nat)
    requires IsMember(m) && Holds(memory, address, Encoded(m)) && address + |Encoded(m)| < TWO32
    ensures Headers(memory, address, room)
            == if room == 0 then None
               else match Headers(memory, address + |Encoded(m)|, room - 1)
                 case None => None
                 case Some(rest) => Some([address] + rest)
  {
    hide Encoded, OctalText, OctalValue, NextHeader, PaddingLength;
    EncodedLength(m);
    OctalTextReads(|m.data|);
    HoldsSlice(memory, address, Encoded(m), 0, 1);
    assert memory[address] == memory[address..address + 1][0] == Encoded(m)[0..1][0];
    HoldsSlice(memory, address, Encoded(m), SIZE_FIELD, SIZE_FIELD + SIZE_DIGITS);
    PaddingIs(m);
    NextIsBehind(address, |m.data|);
  }

  lemma PaddingIs(m: Member)
    requires IsMember(m)
    ensures |m.padding| == PaddingLength(|m.data|)
  {
  }

  lemma WalkEnd(memory: seq<byte>, address: uint32, room: nat)
    requires Holds(memory, address, Archive([]) + [0])
    ensures Headers(memory, address, room) == if room == 0 then None else Some([address])
  {
    assert Archive([]) + [0] == [0];
    assert memory[address] == memory[address..address + 1][0];
  }

  lemma ArchiveParts(members: seq<Member>)
    requires members != [] && forall m :: m in members ==> IsMember(m)
    ensures Archive(members) + [0] == Encoded(members[0]) + (Archive(members[1..]) + [0])
    ensures |Archive(members)| == |Encoded(members[0])| + |Archive(members[1..])|
  {
    hide Encoded;
  }

  /**
   The walker inverts the archive: on the members' encodings, followed by a
   zero byte where the next header would be, it finds every header and the
   end, provided there is room for all of them. Otherwise it would overrun.
   */
  lemma {:induction false} WalkInvertsArchive(memory: seq<byte>, address: uint32, members: seq<Member>, room: nat)
    requires forall m :: m in members ==> IsMember(m)
    requires Holds(memory, address, Archive(members) + [0]) && address + |Archive(members)| < TWO32
    ensures if |members| < room then Headers(memory, address, room) == Some(Addresses(members, address))
            else Headers(memory, address, room) == None
    decreases |members|
  {
    hide Headers, Encoded, Archive, IsMember;
    if members == [] {
      WalkEnd(memory, address, room);
    } else {
      var m, rest := members[0], members[1..];
      ArchiveParts(members);
      HoldsParts(memory, address, Encoded(m), Archive(rest) + [0]);
      WalkMember(memory, address, m, room);
      if room > 0 {
        WalkInvertsArchive(memory, address + |Encoded(m)|, rest, room - 1);
      }
    }
  }

  /** The data of member k lies one record behind its header. */
  lemma {:induction false} DataBehindHeader(memory: seq<byte>, address: nat, members: seq<Member>, k: nat)
    requires forall m :: m in members ==> IsMember(m)
    requires Holds(memory, address, Archive(members) + [0]) && k < |members|
    ensures |Addresses(members, address)| == |members| + 1
    ensures var at := Addresses(members, address)[k] + RECORD; Holds(memory, at, members[k].data)
    decreases |members|
  {
    hide Encoded, Archive, IsMember, Holds;
    var m, rest := members[0], members[1..];
    AddressCount(members, address);
    ArchiveParts(members);
    HoldsParts(memory, address, Encoded(m), Archive(rest) + [0]);
    if k == 0 {
      EncodedLength(m);
      HoldsData(memory, address, m);
    } else {
      DataBehindHeader(memory, address + |Encoded(m)|, rest, k - 1);
    }
  }

  lemma HoldsData(memory: seq<byte>, address: nat, m: Member)
    requires IsMember(m) && Holds(memory, address, Encoded(m))
    ensures Holds(memory, address + RECORD, m.data)
  {
    hide Encoded;
    EncodedLength(m);
    HoldsSlice(memory, address, Encoded(m), RECORD, RECORD + |m.data|);
  }

  lemma {:induction false} AddressCount(members: seq<Member>, address: nat)
    requires forall m :: m in members ==> IsMember(m)
    ensures |Addresses(members, address)| == |members| + 1
    decreases |members|
  {
    if members != [] {
      AddressCount(members[1..], address + |Encoded(members[0])|);
    }
  }

  /**
   The whole claim for `parse`: it succeeds on an archive exactly when there
   are at most 31 members, and then it counts them.
   */
  lemma ParseInvertsArchive(memory: seq<byte>, initramfs: uint64, members: seq<Member>)
    requires forall m :: m in members ==> IsMember(m)
    requires Holds(memory, initramfs % TWO32, Archive(members) + [0])
    requires initramfs % TWO32 + |Archive(members)| < TWO32
    ensures Headers(memory, initramfs % TWO32, MAX_HEADERS).Some? <==> |members| <= 31
    ensures |members| <= 31 ==>
              var all := Headers(memory, initramfs % TWO32, MAX_HEADERS).value;
              && |all| - 1 == |members|
              && all == Addresses(members, initramfs % TWO32)
              && forall k :: 0 <= k < |members| ==> Holds(memory, all[k] + RECORD, members[k].data)
  {
    hide Headers, Archive, Holds, IsMember, Addresses;
    var address := initramfs % TWO32;
    WalkInvertsArchive(memory, address, members, MAX_HEADERS);
    AddressCount(members, address);
    forall k | 0 <= k < |members|
      ensures Holds(memory, Addresses(members, address)[k] + RECORD, members[k].data)
    {
      DataBehindHeader(memory, address, members, k);
    }
  }

  /** An empty file with a one-letter name. */
  const EmptyFile := Member([0x61], seq(24, _ => 0), seq(377, _ => 0), [], [])

  function Copies(m: Member, n: nat): (r: seq<Member>)
    ensures |r| == n && forall k :: 0 <= k < n ==> r[k] == m
  {
    if n == 0 then [] else [m] + Copies(m, n - 1)
  }

  lemma {:induction false} CopiesLength(m: Member, n: nat)
    requires IsMember(m)
    ensures |Archive(Copies(m, n))| == n * |Encoded(m)|
  {
    hide Encoded, IsMember;
    if n > 0 {
      assert Copies(m, n)[1..] == Copies(m, n - 1);
      CopiesLength(m, n - 1);
      ArchiveParts(Copies(m, n));
    }
  }

  /** An archive that goes wrong: 32 empty files, at address 0. */
  lemma ThirtyTwoFiles()
    ensures IsMember(EmptyFile)
    ensures Headers(Archive(Copies(EmptyFile, 32)) + [0], 0, MAX_HEADERS) == None
    ensures Headers(Archive(Copies(EmptyFile, 31)) + [0], 0, MAX_HEADERS).Some?
  {
    EncodedLength(EmptyFile);
    hide Headers, Archive, Encoded, IsMember;
    FilesFound(32);
    FilesFound(31);
  }

  lemma HoldsItself(memory: seq<byte>)
    ensures Holds(memory, 0, memory)
  {
    assert memory[0..0 + |memory|] == memory;
  }

  lemma FilesFound(n: nat)
    requires n <= 32
    ensures IsMember(EmptyFile)
    ensures Headers(Archive(Copies(EmptyFile, n)) + [0], 0, MAX_HEADERS).Some? <==> n <= 31
  {
    EncodedLength(EmptyFile);
    assert |EmptyFile.data| == |EmptyFile.padding| == 0;
    hide Headers, Archive, Encoded, IsMember, Addresses, Copies, EmptyFile;
    var members := Copies(EmptyFile, n);
    CopiesLength(EmptyFile, n);
    var memory := Archive(members) + [0];
    HoldsItself(memory);
    hide Holds;
    ParseInvertsArchive(memory, 0, members);
  }
}
