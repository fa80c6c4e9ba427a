/**
 * The packet decoder of src/day16.rs: the hexadecimal transmission expanded to
 * bits, the recursive packet parser over a stream of bits, and the two
 * recursive folds over the packet tree (version sum and expression value).
 *
 * The source reads the bits from a shared `Chars` iterator. Here the stream is
 * the string of bits together with the index of the next unread character; a
 * parse returns the packet, the `bits_read` count the source returns, and the
 * index at which it left the iterator.
 */
module Packets {
  import opened Wrappers
  import opened Text

  // ---------------------------------------------------------------------------
  // Hexadecimal to bits
  // ---------------------------------------------------------------------------

  /** The characters `char::to_digit(16)` accepts. */
  predicate IsHexDigit(c: char) {
    ('0' <= c <= '9') || ('a' <= c <= 'f') || ('A' <= c <= 'F')
  }

  /** `char::to_digit(16)`. */
  function HexValue(c: char): (d: nat)
    requires IsHexDigit(c)
    ensures d < 16
  {
    if '0' <= c <= '9' then (c as int) - ('0' as int)
    else if 'a' <= c <= 'f' then (c as int) - ('a' as int) + 10
    else (c as int) - ('A' as int) + 10
  }

  function BitChar(b: nat): char
    requires b < 2
  {
    if b == 0 then '0' else '1'
  }

  /** `format!("{:04b}", d)`: d in binary, most significant bit first, padded with zeros to four characters. */
  function Nibble(d: nat): (s: string)
    requires d < 16
    ensures |s| == 4
  {
    [BitChar(d / 8), BitChar(d / 4 % 2), BitChar(d / 2 % 2), BitChar(d % 2)]
  }

  /** The four characters of a nibble read back in base 2 give the digit again. */
  lemma NibbleValue(d: nat)
    requires d < 16
    ensures FromStrRadix(Nibble(d), 2) == Ok(d)
  {
    var s := Nibble(d);
    var s1, s2, s3 := s[1..], s[2..], s[3..];
    assert s1[1..] == s2 && s2[1..] == s3 && s3[1..] == [];
    assert Accumulate(s3, 2, d / 2) == Ok(d);
    assert Accumulate(s2, 2, d / 4) == Ok(d);
    assert Accumulate(s1, 2, d / 8) == Ok(d);
  }

  /** The transmission as bits: every hexadecimal digit becomes its four-bit nibble. */
  function HexToBits(hex: string): (bits: string)
    requires forall i :: 0 <= i < |hex| ==> IsHexDigit(hex[i])
    ensures |bits| == 4 * |hex|
    ensures forall i :: 0 <= i < |hex| ==> bits[4 * i..4 * i + 4] == Nibble(HexValue(hex[i]))
  {
    if hex == [] then []
    else
      var rest := HexToBits(hex[1..]);
      var bits := Nibble(HexValue(hex[0])) + rest;
      assert forall i :: 1 <= i < |hex| ==> bits[4 * i..4 * i + 4] == rest[4 * (i - 1)..4 * (i - 1) + 4];
      bits
  }

  // ---------------------------------------------------------------------------
  // Packets
  // ---------------------------------------------------------------------------

  datatype Packet = Packet(version: nat, inner: Inner)

  datatype Inner = Literal(value: nat) | Operation(opcode: nat, subs: seq<Packet>)

  /**
   * Why a parse fails: a field that `usize::from_str_radix(.., 2)` rejects
   * (the source's `?`), or an iterator that runs dry where the source calls
   * `chars.next().unwrap()` and panics.
   */
  datatype PacketError = BadField(IntError) | EndOfStream

  /** A parsed packet, the `bits_read` the source reports for it, and where the iterator stands afterwards. */
  datatype Parsed = Parsed(packet: Packet, bitsRead: nat, next: nat)

  /** Sub-packets parsed by one of the two loops, the bits they reported, and where the iterator stands afterwards. */
  datatype ParsedList = ParsedList(packets: seq<Packet>, bitsRead: nat, next: nat)

  /** `chars.take(n).collect()`: up to n characters from position pos, fewer when the stream ends first. */
  function Take(bits: string, pos: nat, n: nat): (s: string)
    requires pos <= |bits|
    ensures |s| <= n && pos + |s| <= |bits|
    ensures |s| < n ==> pos + |s| == |bits|
  {
    if pos + n <= |bits| then bits[pos..pos + n] else bits[pos..]
  }

  /** A binary field of up to n bits, read most significant bit first. */
  function Field(bits: string, pos: nat, n: nat): Result<nat, PacketError>
    requires pos <= |bits|
  {
    match FromStrRadix(Take(bits, pos, n), 2)
    case Ok(v) => Ok(v)
    case Err(e) => Err(BadField(e))
  }

  /**
   * The literal loop: read a flag bit, then up to four value bits appended to
   * `digits`, counting 5 bits per group; stop after the group whose flag is '0'.
   */
  function LiteralGroups(bits: string, pos: nat, digits: string, read: nat): (r: Result<(string, nat, nat), PacketError>)
    requires pos <= |bits|
    ensures r.Ok? ==> pos < r.value.2 <= |bits|
    ensures r.Ok? ==> read < r.value.1 && (r.value.1 - read == r.value.2 - pos || r.value.2 == |bits|)
    decreases |bits| - pos
  {
    if pos == |bits| then Err(EndOfStream)
    else
      var group := Take(bits, pos + 1, 4);
      var next := pos + 1 + |group|;
      if bits[pos] == '0' then Ok((digits + group, read + 5, next))
      else LiteralGroups(bits, next, digits + group, read + 5)
  }

  /**
   * `Node::from_chars` from position pos: a 3-bit version, a 3-bit type id,
   * then a literal (type 4) or an operator whose sub-packets are delimited by
   * a 15-bit total length (length type '0') or an 11-bit count (otherwise).
   * The reported bit count is the number of bits consumed unless the stream
   * ran out on the way.
   */
  function ParsePacket(bits: string, pos: nat): (r: Result<Parsed, PacketError>)
    requires pos <= |bits|
    ensures r.Ok? ==> pos < r.value.next <= |bits|
    ensures r.Ok? ==> r.value.bitsRead >= 6
    ensures r.Ok? ==> r.value.bitsRead == r.value.next - pos || r.value.next == |bits|
    decreases |bits| - pos, 2
  {
    var p1 := pos + |Take(bits, pos, 3)|;
    var p2 := p1 + |Take(bits, p1, 3)|;
    match Field(bits, pos, 3)
    case Err(e) => Err(e)
    case Ok(version) =>
      match Field(bits, p1, 3)
      case Err(e) => Err(e)
      case Ok(opcode) =>
        if opcode == 4 then
          match LiteralGroups(bits, p2, [], 6)
          case Err(e) => Err(e)
          case Ok((digits, read, next)) =>
            match FromStrRadix(digits, 2)
            case Err(e) => Err(BadField(e))
            case Ok(n) => Ok(Parsed(Packet(version, Literal(n)), read, next))
        else ParseOperator(bits, pos, p2, version, opcode)
  }

  /**
   * The operator part of `Node::from_chars`, once the six header bits of the
   * packet that starts at pos have been read and the iterator stands at p2:
   * the length type bit, then the 15-bit length or the 11-bit count, then the
   * sub-packets.
   */
  function ParseOperator(bits: string, pos: nat, p2: nat, version: nat, opcode: nat): (r: Result<Parsed, PacketError>)
    requires pos < p2 <= |bits| && (p2 == pos + 6 || p2 == |bits|)
    ensures r.Ok? ==> p2 < r.value.next <= |bits|
    ensures r.Ok? ==> r.value.bitsRead >= 18
    ensures r.Ok? ==> r.value.bitsRead == r.value.next - pos || r.value.next == |bits|
    decreases |bits| - pos, 1
  {
    if p2 == |bits| then Err(EndOfStream)
    else if bits[p2] == '0' then
      var p3 := p2 + 1 + |Take(bits, p2 + 1, 15)|;
      match Field(bits, p2 + 1, 15)
      case Err(e) => Err(e)
      case Ok(length) =>
        match SubsByLength(bits, p3, length, ParsedList([], 0, p3))
        case Err(e) => Err(e)
        case Ok(subs) => Ok(Parsed(Packet(version, Operation(opcode, subs.packets)), 22 + subs.bitsRead, subs.next))
    else
      var p3 := p2 + 1 + |Take(bits, p2 + 1, 11)|;
      match Field(bits, p2 + 1, 11)
      case Err(e) => Err(e)
      case Ok(count) =>
        match SubsByCount(bits, p3, count, ParsedList([], 0, p3))
        case Err(e) => Err(e)
        case Ok(subs) => Ok(Parsed(Packet(version, Operation(opcode, subs.packets)), 18 + subs.bitsRead, subs.next))
  }

  /**
   * The length-type-0 loop: parse sub-packets while the bits they report add
   * up to less than `length`. `acc` holds what has been parsed so far, from
   * position start; the iterator stands at acc.next.
   */
  function SubsByLength(bits: string, start: nat, length: nat, acc: ParsedList): (r: Result<ParsedList, PacketError>)
    requires start <= acc.next <= |bits|
    requires acc.bitsRead == acc.next - start || acc.next == |bits|
    ensures r.Ok? ==> acc.next <= r.value.next <= |bits| && r.value.bitsRead >= length
    ensures r.Ok? ==> r.value.bitsRead == r.value.next - start || r.value.next == |bits|
    decreases |bits| - acc.next, 3
  {
    if acc.bitsRead >= length then Ok(acc)
    else
      match ParsePacket(bits, acc.next)
      case Err(e) => Err(e)
      case Ok(p) =>
        SubsByLength(bits, start, length, ParsedList(acc.packets + [p.packet], acc.bitsRead + p.bitsRead, p.next))
  }

  /** The length-type-1 loop: parse exactly `count` more sub-packets. */
  function SubsByCount(bits: string, start: nat, count: nat, acc: ParsedList): (r: Result<ParsedList, PacketError>)
    requires start <= acc.next <= |bits|
    requires acc.bitsRead == acc.next - start || acc.next == |bits|
    ensures r.Ok? ==> acc.next <= r.value.next <= |bits| && |r.value.packets| == |acc.packets| + count
    ensures r.Ok? ==> r.value.bitsRead == r.value.next - start || r.value.next == |bits|
    decreases |bits| - acc.next, 3, count
  {
    if count == 0 then Ok(acc)
    else
      match ParsePacket(bits, acc.next)
      case Err(e) => Err(e)
      case Ok(p) =>
        SubsByCount(bits, start, count - 1, ParsedList(acc.packets + [p.packet], acc.bitsRead + p.bitsRead, p.next))
  }

  /**
   * `Node::from_chars`, step by step as the source runs it: the iterator
   * position advances as characters are taken and `bits_read` is counted
   * separately. The three loops of the source are the methods below.
   */
  method FromChars(bits: string, pos: nat) returns (r: Result<Parsed, PacketError>)
    requires pos <= |bits|
    ensures r == ParsePacket(bits, pos)
    decreases |bits| - pos, 1
  {
    var cur := pos;
    var versionBits := Take(bits, cur, 3);
    cur := cur + |versionBits|;
    var version := FromStrRadix(versionBits, 2);
    if version.Err? {
      return Err(BadField(version.error));
    }
    var opcodeBits := Take(bits, cur, 3);
    cur := cur + |opcodeBits|;
    var opcode := FromStrRadix(opcodeBits, 2);
    if opcode.Err? {
      return Err(BadField(opcode.error));
    }
    if opcode.value == 4 {
      var groups := ReadLiteral(bits, cur, 6);
      if groups.Err? {
        return Err(groups.error);
      }
      var (num, bitsRead, next) := groups.value;
      var number := FromStrRadix(num, 2);
      if number.Err? {
        return Err(BadField(number.error));
      }
      return Ok(Parsed(Packet(version.value, Literal(number.value)), bitsRead, next));
    }
    r := ReadOperator(bits, pos, cur, version.value, opcode.value);
  }

  /** The operator part of `from_chars`: the length type bit, the length or count, the sub-packets. */
  method ReadOperator(bits: string, pos: nat, p2: nat, version: nat, opcode: nat) returns (r: Result<Parsed, PacketError>)
    requires pos < p2 <= |bits| && (p2 == pos + 6 || p2 == |bits|)
    ensures r == ParseOperator(bits, pos, p2, version, opcode)
    decreases |bits| - pos, 0
  {
    var cur := p2;
    if cur == |bits| {
      return Err(EndOfStream);
    }
    var lengthBased := bits[cur] == '0';
    cur := cur + 1;
    if lengthBased {
      var lengthBits := Take(bits, cur, 15);
      cur := cur + |lengthBits|;
      var length := FromStrRadix(lengthBits, 2);
      if length.Err? {
        return Err(BadField(length.error));
      }
      var subs := ReadSubsByLength(bits, cur, length.value);
      if subs.Err? {
        return Err(subs.error);
      }
      return Ok(Parsed(Packet(version, Operation(opcode, subs.value.packets)), 6 + 16 + subs.value.bitsRead, subs.value.next));
    } else {
      var countBits := Take(bits, cur, 11);
      cur := cur + |countBits|;
      var count := FromStrRadix(countBits, 2);
      if count.Err? {
        return Err(BadField(count.error));
      }
      var subs := ReadSubsByCount(bits, cur, count.value);
      if subs.Err? {
        return Err(subs.error);
      }
      return Ok(Parsed(Packet(version, Operation(opcode, subs.value.packets)), 6 + 12 + subs.value.bitsRead, subs.value.next));
    }
  }

  /** The literal loop of `from_chars`: groups of a flag bit and four value bits, until a '0' flag. */
  method ReadLiteral(bits: string, pos: nat, read: nat) returns (r: Result<(string, nat, nat), PacketError>)
    requires pos <= |bits|
    ensures r == LiteralGroups(bits, pos, [], read)
  {
    var cur, num, bitsRead := pos, "", read;
    while true
      invariant pos <= cur <= |bits|
      invariant LiteralGroups(bits, cur, num, bitsRead) == LiteralGroups(bits, pos, [], read)
      decreases |bits| - cur
    {
      if cur == |bits| {
        return Err(EndOfStream);
      }
      var lastFlag := bits[cur];
      var group := Take(bits, cur + 1, 4);
      cur := cur + 1 + |group|;
      num := num + group;
      bitsRead := bitsRead + 5;
      if lastFlag == '0' {
        return Ok((num, bitsRead, cur));
      }
    }
  }

  /** The length-type-0 loop of `from_chars`: parse sub-packets until their reported bits reach `length`. */
  method ReadSubsByLength(bits: string, start: nat, length: nat) returns (r: Result<ParsedList, PacketError>)
    requires start <= |bits|
    ensures r == SubsByLength(bits, start, length, ParsedList([], 0, start))
    decreases |bits| - start, 3
  {
    var cur := start;
    var subNodes := [];
    var newBitsRead: nat := 0;
    ghost var goal := SubsByLength(bits, start, length, ParsedList([], 0, start));
    while newBitsRead < length
      invariant start <= cur <= |bits|
      invariant newBitsRead == cur - start || cur == |bits|
      invariant SubsByLength(bits, start, length, ParsedList(subNodes, newBitsRead, cur)) == goal
      decreases |bits| - cur
    {
      var sub := ReadSubByLength(bits, start, length, subNodes, newBitsRead, cur);
      if sub.Err? {
        return Err(sub.error);
      }
      subNodes, newBitsRead, cur := sub.value.packets, sub.value.bitsRead, sub.value.next;
    }
    return Ok(ParsedList(subNodes, newBitsRead, cur));
  }

  /** One turn of the length-type-0 loop: parse the sub-packet at `cur` and add it to the list. */
  method ReadSubByLength(bits: string, start: nat, length: nat, subNodes: seq<Packet>, newBitsRead: nat, cur: nat)
    returns (r: Result<ParsedList, PacketError>)
    requires start <= cur <= |bits|
    requires newBitsRead == cur - start || cur == |bits|
    requires newBitsRead < length
    ensures r.Err? ==> SubsByLength(bits, start, length, ParsedList(subNodes, newBitsRead, cur)) == Err(r.error)
    ensures r.Ok? ==> cur < r.value.next <= |bits| && (r.value.bitsRead == r.value.next - start || r.value.next == |bits|)
    ensures r.Ok? ==>
      SubsByLength(bits, start, length, ParsedList(r.value.packets, r.value.bitsRead, r.value.next))
      == SubsByLength(bits, start, length, ParsedList(subNodes, newBitsRead, cur))
    decreases |bits| - cur, 2
  {
    var sub := FromChars(bits, cur);
    if sub.Err? {
      SubsByLengthFails(bits, start, length, subNodes, newBitsRead, cur);
      return Err(sub.error);
    }
    SubsByLengthStep(bits, start, length, subNodes, newBitsRead, cur, sub.value);
    return Ok(ParsedList(subNodes + [sub.value.packet], newBitsRead + sub.value.bitsRead, sub.value.next));
  }

  /** The length-type-1 loop of `from_chars`: parse exactly `count` sub-packets. */
  method ReadSubsByCount(bits: string, start: nat, count: nat) returns (r: Result<ParsedList, PacketError>)
    requires start <= |bits|
    ensures r == SubsByCount(bits, start, count, ParsedList([], 0, start))
    decreases |bits| - start, 3
  {
    var cur := start;
    var subNodes := [];
    var subBitsRead: nat := 0;
    ghost var goal := SubsByCount(bits, start, count, ParsedList([], 0, start));
    for k := 0 to count
      invariant start <= cur <= |bits|
      invariant subBitsRead == cur - start || cur == |bits|
      invariant SubsByCount(bits, start, count - k, ParsedList(subNodes, subBitsRead, cur)) == goal
    {
      var sub := ReadSubByCount(bits, start, count - k, subNodes, subBitsRead, cur);
      if sub.Err? {
        return Err(sub.error);
      }
      subNodes, subBitsRead, cur := sub.value.packets, sub.value.bitsRead, sub.value.next;
    }
    return Ok(ParsedList(subNodes, subBitsRead, cur));
  }

  /** One turn of the length-type-1 loop: parse the sub-packet at `cur` and add it to the list. */
  method ReadSubByCount(bits: string, start: nat, left: nat, subNodes: seq<Packet>, subBitsRead: nat, cur: nat)
    returns (r: Result<ParsedList, PacketError>)
    requires start <= cur <= |bits|
    requires subBitsRead == cur - start || cur == |bits|
    requires left > 0
    ensures r.Err? ==> SubsByCount(bits, start, left, ParsedList(subNodes, subBitsRead, cur)) == Err(r.error)
    ensures r.Ok? ==> cur < r.value.next <= |bits| && (r.value.bitsRead == r.value.next - start || r.value.next == |bits|)
    ensures r.Ok? ==>
      SubsByCount(bits, start, left - 1, ParsedList(r.value.packets, r.value.bitsRead, r.value.next))
      == SubsByCount(bits, start, left, ParsedList(subNodes, subBitsRead, cur))
    decreases |bits| - cur, 2
  {
    var sub := FromChars(bits, cur);
    if sub.Err? {
      SubsByCountFails(bits, start, left, subNodes, subBitsRead, cur);
      return Err(sub.error);
    }
    SubsByCountStep(bits, start, left, subNodes, subBitsRead, cur, sub.value);
    return Ok(ParsedList(subNodes + [sub.value.packet], subBitsRead + sub.value.bitsRead, sub.value.next));
  }

  /** One turn of the length-type-0 loop: a sub-packet parsed at `cur` joins the list. */
  lemma SubsByLengthStep(bits: string, start: nat, length: nat, packets: seq<Packet>, read: nat, cur: nat, p: Parsed)
    requires start <= cur <= |bits|
    requires read == cur - start || cur == |bits|
    requires read < length && ParsePacket(bits, cur) == Ok(p)
    ensures cur < p.next <= |bits|
    ensures read + p.bitsRead == p.next - start || p.next == |bits|
    ensures SubsByLength(bits, start, length, ParsedList(packets + [p.packet], read + p.bitsRead, p.next))
         == SubsByLength(bits, start, length, ParsedList(packets, read, cur))
  {
    var acc := ParsedList(packets, read, cur);
    var acc' := ParsedList(packets + [p.packet], read + p.bitsRead, p.next);
    match ParsePacket(bits, acc.next)
    case Ok(q) =>
      assert q == p;
      assert SubsByLength(bits, start, length, acc) == SubsByLength(bits, start, length, acc');
  }

  /** One turn of the length-type-1 loop: a sub-packet parsed at `cur` joins the list. */
  lemma SubsByCountStep(bits: string, start: nat, count: nat, packets: seq<Packet>, read: nat, cur: nat, p: Parsed)
    requires start <= cur <= |bits|
    requires read == cur - start || cur == |bits|
    requires count > 0 && ParsePacket(bits, cur) == Ok(p)
    ensures cur < p.next <= |bits|
    ensures read + p.bitsRead == p.next - start || p.next == |bits|
    ensures SubsByCount(bits, start, count - 1, ParsedList(packets + [p.packet], read + p.bitsRead, p.next))
         == SubsByCount(bits, start, count, ParsedList(packets, read, cur))
  {
    var acc := ParsedList(packets, read, cur);
    var acc' := ParsedList(packets + [p.packet], read + p.bitsRead, p.next);
    match ParsePacket(bits, acc.next)
    case Ok(q) =>
      assert q == p;
      assert SubsByCount(bits, start, count, acc) == SubsByCount(bits, start, count - 1, acc');
  }

  /** The length-type-0 loop stops at the first sub-packet that fails to parse, with its error. */
  lemma SubsByLengthFails(bits: string, start: nat, length: nat, packets: seq<Packet>, read: nat, cur: nat)
    requires start <= cur <= |bits|
    requires read == cur - start || cur == |bits|
    requires read < length && ParsePacket(bits, cur).Err?
    ensures SubsByLength(bits, start, length, ParsedList(packets, read, cur)) == Err(ParsePacket(bits, cur).error)
  {
  }

  /** The length-type-1 loop stops at the first sub-packet that fails to parse, with its error. */
  lemma SubsByCountFails(bits: string, start: nat, count: nat, packets: seq<Packet>, read: nat, cur: nat)
    requires start <= cur <= |bits|
    requires read == cur - start || cur == |bits|
    requires count > 0 && ParsePacket(bits, cur).Err?
    ensures SubsByCount(bits, start, count, ParsedList(packets, read, cur)) == Err(ParsePacket(bits, cur).error)
  {
  }

  // ---------------------------------------------------------------------------
  // sum_versions and evaluate
  // ---------------------------------------------------------------------------

  /**
   * `sum_versions`: the packet's version plus the version sums of its
   * sub-packets, which adds up the version of every packet in the tree, each
   * exactly once.
   */
  function SumVersions(p: Packet): (n: nat)
    ensures n == VersionTotal(Flatten(p))
    decreases p, 1
  {
    match p.inner
    case Literal(_) =>
      assert Flatten(p) == [p];
      p.version
    case Operation(_, subs) =>
      VersionTotalAppend([p], FlattenAll(subs));
      p.version + SumVersionsAll(subs)
  }

  function SumVersionsAll(ps: seq<Packet>): (n: nat)
    ensures n == VersionTotal(FlattenAll(ps))
    decreases ps, 0
  {
    if ps == [] then 0
    else
      VersionTotalAppend(Flatten(ps[0]), FlattenAll(ps[1..]));
      SumVersions(ps[0]) + SumVersionsAll(ps[1..])
  }

  /** Every packet of the tree, each before its sub-packets (pre-order). */
  function Flatten(p: Packet): (r: seq<Packet>)
    ensures |r| >= 1 && r[0] == p
    decreases p, 1
  {
    [p] + match p.inner
          case Literal(_) => []
          case Operation(_, subs) => FlattenAll(subs)
  }

  function FlattenAll(ps: seq<Packet>): seq<Packet>
    decreases ps, 0
  {
    if ps == [] then [] else Flatten(ps[0]) + FlattenAll(ps[1..])
  }

  /** The versions of a list of packets, added up. */
  function VersionTotal(ps: seq<Packet>): nat {
    if ps == [] then 0 else ps[0].version + VersionTotal(ps[1..])
  }

  lemma {:induction false} VersionTotalAppend(a: seq<Packet>, b: seq<Packet>)
    ensures VersionTotal(a + b) == VersionTotal(a) + VersionTotal(b)
  {
    if a == [] {
      assert a + b == b;
    } else {
      assert (a + b)[1..] == a[1..] + b;
      VersionTotalAppend(a[1..], b);
    }
  }

  function Sum(xs: seq<nat>): nat {
    if xs == [] then 0 else xs[0] + Sum(xs[1..])
  }

  function Product(xs: seq<nat>): nat {
    if xs == [] then 1 else xs[0] * Product(xs[1..])
  }

  /** `Iterator::min` on a non-empty list: an element that no element is below. */
  function Min(xs: seq<nat>): (m: nat)
    requires |xs| > 0
    ensures m in xs && forall i :: 0 <= i < |xs| ==> m <= xs[i]
  {
    if |xs| == 1 then xs[0]
    else
      var rest := Min(xs[1..]);
      assert forall i :: 1 <= i < |xs| ==> xs[i] == xs[1..][i - 1];
      if xs[0] <= rest then xs[0] else rest
  }

  /** `Iterator::max` on a non-empty list: an element that no element is above. */
  function Max(xs: seq<nat>): (m: nat)
    requires |xs| > 0
    ensures m in xs && forall i :: 0 <= i < |xs| ==> xs[i] <= m
  {
    if |xs| == 1 then xs[0]
    else
      var rest := Max(xs[1..]);
      assert forall i :: 1 <= i < |xs| ==> xs[i] == xs[1..][i - 1];
      if xs[0] >= rest then xs[0] else rest
  }

  /** 1 when the relation holds, 0 otherwise, as the comparison operators report it. */
  function Flag(b: bool): nat {
    if b then 1 else 0
  }

  /**
   * `evaluate`, with None where the source panics: `min().unwrap()` or
   * `max().unwrap()` over no sub-packets, `sub_nodes[0]` or `sub_nodes[1]`
   * out of range, or an opcode outside 0-3 and 5-7. The comparisons look at
   * the first two sub-packets only. It returns a value exactly for the
   * evaluable packets.
   */
  function Evaluate(p: Packet): (r: Option<nat>)
    ensures r.Some? <==> Evaluable(p)
    decreases p, 1
  {
    match p.inner
    case Literal(x) => Some(x)
    case Operation(op, subs) =>
      if op == 5 || op == 6 || op == 7 then
        if |subs| < 2 then None
        else
          match (Evaluate(subs[0]), Evaluate(subs[1]))
          case (Some(a), Some(b)) =>
            Some(if op == 5 then Flag(a > b) else if op == 6 then Flag(a < b) else Flag(a == b))
          case _ => None
      else if op <= 3 then
        match EvaluateAll(subs)
        case None => None
        case Some(values) =>
          if op == 0 then Some(Sum(values))
          else if op == 1 then Some(Product(values))
          else if values == [] then None
          else if op == 2 then Some(Min(values))
          else Some(Max(values))
      else None
  }

  /** The values of all the sub-packets, or None when any of them panics. */
  function EvaluateAll(ps: seq<Packet>): (r: Option<seq<nat>>)
    ensures r.Some? <==> forall i :: 0 <= i < |ps| ==> Evaluate(ps[i]).Some?
    ensures r.Some? ==> |r.value| == |ps| && forall i :: 0 <= i < |ps| ==> Evaluate(ps[i]) == Some(r.value[i])
    decreases ps, 0
  {
    if ps == [] then Some([])
    else
      match (Evaluate(ps[0]), EvaluateAll(ps[1..]))
      case (Some(v), Some(vs)) =>
        assert forall i :: 1 <= i < |ps| ==> ps[i] == ps[1..][i - 1];
        Some([v] + vs)
      case (None, _) => None
      case (_, None) =>
        assert ps[1..][0] == ps[1];
        None
  }

  /**
   * The packets `evaluate` returns from without panicking, stated without
   * evaluating: sum and product take any number of evaluable sub-packets,
   * minimum and maximum at least one, and a comparison needs two sub-packets
   * of which only the first two matter.
   */
  predicate Evaluable(p: Packet)
    decreases p
  {
    match p.inner
    case Literal(_) => true
    case Operation(op, subs) =>
      if op <= 3 then
        (op >= 2 ==> |subs| >= 1) && forall i :: 0 <= i < |subs| ==> Evaluable(subs[i])
      else if 5 <= op <= 7 then
        |subs| >= 2 && Evaluable(subs[0]) && Evaluable(subs[1])
      else false
  }

  /**
   * A comparison packet evaluates to 1 when its relation holds between the
   * values of its first two sub-packets and to 0 when it does not.
   */
  lemma CompareValue(p: Packet)
    requires p.inner.Operation? && 5 <= p.inner.opcode <= 7
    requires Evaluate(p).Some?
    ensures |p.inner.subs| >= 2 && Evaluate(p.inner.subs[0]).Some? && Evaluate(p.inner.subs[1]).Some?
    ensures var a, b := Evaluate(p.inner.subs[0]).value, Evaluate(p.inner.subs[1]).value;
      var holds := if p.inner.opcode == 5 then a > b else if p.inner.opcode == 6 then a < b else a == b;
      Evaluate(p).value <= 1 && (Evaluate(p).value == 1 <==> holds)
  {
  }

  /** A minimum or maximum packet evaluates to one of its sub-packets' values, and bounds all of them. */
  lemma MinMaxValue(p: Packet)
    requires p.inner.Operation? && 2 <= p.inner.opcode <= 3
    requires Evaluate(p).Some?
    ensures exists i :: 0 <= i < |p.inner.subs| && Evaluate(p.inner.subs[i]) == Evaluate(p)
    ensures forall i :: 0 <= i < |p.inner.subs| ==>
      Evaluate(p.inner.subs[i]).Some? &&
      (if p.inner.opcode == 2 then Evaluate(p).value <= Evaluate(p.inner.subs[i]).value
       else Evaluate(p.inner.subs[i]).value <= Evaluate(p).value)
  {
    var values := EvaluateAll(p.inner.subs).value;
    var m := Evaluate(p).value;
    assert m in values;
    var i :| 0 <= i < |values| && values[i] == m;
    assert Evaluate(p.inner.subs[i]) == Evaluate(p);
  }

  // ---------------------------------------------------------------------------
  // Writing fields and literal groups: what the parser reads back
  // ---------------------------------------------------------------------------

  function Pow2(w: nat): (p: nat)
    ensures p >= 1
  {
    if w == 0 then 1 else 2 * Pow2(w - 1)
  }

  /** The low w bits of n, most significant first. */
  function Binary(n: nat, w: nat): (s: string)
    ensures |s| == w
    ensures w > 0 ==> s[0] == '0' || s[0] == '1'
  {
    if w == 0 then [] else Binary(n / 2, w - 1) + [BitChar(n % 2)]
  }

  lemma {:induction false} BinaryAccumulate(n: nat, w: nat, acc: nat)
    requires n < Pow2(w)
    requires acc * Pow2(w) + n <= UsizeMax
    ensures Accumulate(Binary(n, w), 2, acc) == Ok(acc * Pow2(w) + n)
    decreases w
  {
    if w > 0 {
      var m, p := n / 2, Pow2(w - 1);
      assert acc * Pow2(w) == 2 * (acc * p);
      BinaryAccumulate(m, w - 1, acc);
      var d := [BitChar(n % 2)];
      AccumulateAppend(Binary(m, w - 1), d, 2, acc);
      assert d[1..] == [];
      assert Accumulate(d, 2, acc * p + m) == Ok(2 * (acc * p + m) + n % 2);
    }
  }

  /** A field written in w >= 1 bits reads back as the same number. */
  lemma BinaryValue(n: nat, w: nat)
    requires 0 < w && n < Pow2(w) && n <= UsizeMax
    ensures FromStrRadix(Binary(n, w), 2) == Ok(n)
  {
    BinaryAccumulate(n, w, 0);
  }

  /** Reading one bit character shifts the accumulator and adds the bit. */
  lemma AccumulateBit(b: nat, s: string, acc: nat)
    requires b < 2 && 2 * acc + b <= UsizeMax
    ensures Accumulate([BitChar(b)] + s, 2, acc) == Accumulate(s, 2, 2 * acc + b)
  {
    assert ([BitChar(b)] + s)[1..] == s;
  }

  /** The four bits of a nibble, most significant first. */
  lemma NibbleDigits(d: nat)
    requires d < 16
    ensures d / 8 < 2 && d / 4 % 2 < 2 && d / 2 % 2 < 2 && d % 2 < 2
    ensures d == 8 * (d / 8) + 4 * (d / 4 % 2) + 2 * (d / 2 % 2) + d % 2
  {
  }

  /** Reading four bits after acc multiplies acc by 16 and adds their value. */
  lemma FourBitsAccumulate(b0: nat, b1: nat, b2: nat, b3: nat, acc: nat)
    requires b0 < 2 && b1 < 2 && b2 < 2 && b3 < 2
    requires 16 * acc + 8 * b0 + 4 * b1 + 2 * b2 + b3 <= UsizeMax
    ensures Accumulate([BitChar(b0), BitChar(b1), BitChar(b2), BitChar(b3)], 2, acc)
         == Ok(16 * acc + 8 * b0 + 4 * b1 + 2 * b2 + b3)
  {
    var a1 := 2 * acc + b0;
    var a2 := 2 * a1 + b1;
    var a3 := 2 * a2 + b2;
    var t3: string := [BitChar(b3)];
    var t2 := [BitChar(b2)] + t3;
    var t1 := [BitChar(b1)] + t2;
    assert [BitChar(b0), BitChar(b1), BitChar(b2), BitChar(b3)] == [BitChar(b0)] + t1;
    assert t3 == [BitChar(b3)] + [];
    AccumulateBit(b3, [], a3);
    AccumulateBit(b2, t3, a2);
    AccumulateBit(b1, t2, a1);
    AccumulateBit(b0, t1, acc);
  }

  lemma NibbleAccumulate(d: nat, acc: nat)
    requires d < 16 && 16 * acc + d <= UsizeMax
    ensures Accumulate(Nibble(d), 2, acc) == Ok(16 * acc + d)
  {
    NibbleDigits(d);
    FourBitsAccumulate(d / 8, d / 4 % 2, d / 2 % 2, d % 2, acc);
  }

  /** The value bits of a literal: its nibbles, most significant first, as few as there can be. */
  function LiteralDigits(n: nat): (s: string)
    ensures |s| % 4 == 0 && |s| >= 4
    decreases n
  {
    if n < 16 then Nibble(n)
    else
      var high := HighDigits(n);
      FourMore(|LiteralDigits(high)|);
      LiteralDigits(high) + Nibble(LowDigit(n))
  }

  /** n without its last hexadecimal digit. */
  function HighDigits(n: nat): (q: nat)
    requires n >= 16
    ensures q < n && 16 * q <= n
  {
    n / 16
  }

  /** The last hexadecimal digit of n. */
  function LowDigit(n: nat): (d: nat)
    ensures d < 16
  {
    n % 16
  }

  lemma HighLow(n: nat)
    requires n >= 16
    ensures 16 * HighDigits(n) + LowDigit(n) == n
  {
  }

  lemma FourMore(k: nat)
    requires k % 4 == 0
    ensures (k + 4) % 4 == 0
  {
  }

  lemma {:induction false} LiteralDigitsValue(n: nat)
    requires n <= UsizeMax
    ensures Accumulate(LiteralDigits(n), 2, 0) == Ok(n)
    decreases n
  {
    if n < 16 {
      NibbleAccumulate(n, 0);
    } else {
      var high, low := HighDigits(n), LowDigit(n);
      HighLow(n);
      LiteralDigitsValue(high);
      NibbleAccumulate(low, high);
      AccumulateAppend(LiteralDigits(high), Nibble(low), 2, 0);
    }
  }

  /** Value bits cut into groups of a flag bit and four value bits; only the last flag is '0'. */
  function Groups(digits: string): (s: string)
    requires |digits| % 4 == 0 && |digits| >= 4
    ensures |s| == |digits| / 4 * 5
    decreases |digits|
  {
    if |digits| == 4 then "0" + digits else "1" + digits[..4] + Groups(digits[4..])
  }

  /**
   * The characters of e stand in the stream from position pos on, one
   * character at a time.
   */
  predicate Written(bits: string, pos: nat, e: string)
    decreases |e|
  {
    pos + |e| <= |bits| && (e == [] || (bits[pos] == e[0] && Written(bits, pos + 1, e[1..])))
  }

  lemma {:induction false} WrittenSlice(bits: string, pos: nat, e: string)
    requires Written(bits, pos, e)
    ensures bits[pos..pos + |e|] == e
    decreases |e|
  {
    if e != [] {
      WrittenSlice(bits, pos + 1, e[1..]);
      assert bits[pos..pos + |e|] == [bits[pos]] + bits[pos + 1..pos + |e|];
    }
  }

  lemma {:induction false} SliceWritten(bits: string, pos: nat, e: string)
    requires pos + |e| <= |bits| && bits[pos..pos + |e|] == e
    ensures Written(bits, pos, e)
    decreases |e|
  {
    if e != [] {
      assert bits[pos] == e[0];
      assert bits[pos + 1..pos + |e|] == e[1..];
      SliceWritten(bits, pos + 1, e[1..]);
    }
  }

  /** Written in the stream is the same as occurring as a slice of it. */
  lemma WrittenOccurs(bits: string, pos: nat, e: string)
    ensures Written(bits, pos, e) <==> OccursAt(bits, e, pos)
  {
    if Written(bits, pos, e) {
      WrittenSlice(bits, pos, e);
    }
    if OccursAt(bits, e, pos) {
      SliceWritten(bits, pos, e);
    }
  }

  lemma WrittenConcat(bits: string, pos: nat, a: string, b: string)
    requires Written(bits, pos, a + b)
    ensures Written(bits, pos, a) && Written(bits, pos + |a|, b)
  {
    WrittenSlice(bits, pos, a + b);
    var whole := bits[pos..pos + |a| + |b|];
    assert bits[pos..pos + |a|] == whole[..|a|] == a;
    assert bits[pos + |a|..pos + |a| + |b|] == whole[|a|..] == b;
    SliceWritten(bits, pos, a);
    SliceWritten(bits, pos + |a|, b);
  }

  lemma WrittenTake(bits: string, pos: nat, e: string, n: nat)
    requires Written(bits, pos, e) && n <= |e|
    ensures Take(bits, pos, n) == e[..n]
  {
    WrittenSlice(bits, pos, e);
    assert bits[pos..pos + n] == bits[pos..pos + |e|][..n];
  }

  /** A field written in w >= 1 bits reads back from the stream. */
  lemma WrittenField(bits: string, pos: nat, n: nat, w: nat)
    requires Written(bits, pos, Binary(n, w))
    requires 0 < w && n < Pow2(w) && n <= UsizeMax
    ensures Take(bits, pos, w) == Binary(n, w) && Field(bits, pos, w) == Ok(n)
  {
    WrittenTake(bits, pos, Binary(n, w), w);
    assert Binary(n, w)[..w] == Binary(n, w);
    BinaryValue(n, w);
  }

  /** The literal loop reads written groups back: their value bits, 5 bits per group, up to the end of the last group. */
  lemma {:induction false} LiteralGroupsEncoded(bits: string, pos: nat, digits: string, acc: string, read: nat)
    requires |digits| % 4 == 0 && |digits| >= 4
    requires Written(bits, pos, Groups(digits))
    ensures LiteralGroups(bits, pos, acc, read) == Ok((acc + digits, read + |Groups(digits)|, pos + |Groups(digits)|))
    decreases |digits|
  {
    var g := Groups(digits);
    assert bits[pos] == g[0];
    WrittenTake(bits, pos + 1, g[1..], 4);
    if |digits| == 4 {
      assert g[1..][..4] == digits;
    } else {
      assert g == ("1" + digits[..4]) + Groups(digits[4..]);
      assert g[1..][..4] == digits[..4];
      WrittenConcat(bits, pos, "1" + digits[..4], Groups(digits[4..]));
      LiteralGroupsEncoded(bits, pos + 5, digits[4..], acc + digits[..4], read + 5);
      assert acc + digits[..4] + digits[4..] == acc + digits;
    }
  }

}
