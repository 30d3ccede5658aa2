/** The kernel blocklist maps, the messages that change them, and the packet decision. */
module Xdp {
  import opened Lpm
  import opened Bytes
  import opened Normalize

  /** Kernel tries keyed by network bits (value 1 = block), and the loader's own list of entries. */
  datatype Maps = Maps(v4: map<Bits, nat>, v6: map<Bits, nat>, entries: set<Net>)

  const EMPTY := Maps(map[], map[], {})

  function Trie(s: Maps, v6: bool): (t: map<Bits, nat>) { if v6 then s.v6 else s.v4 }

  function Put(s: Maps, n: Net): (r: Maps)
    requires ValidNet(n)
  {
    var t := if n.v6 then s.(v6 := s.v6[Key(n) := 1]) else s.(v4 := s.v4[Key(n) := 1]);
    t.(entries := s.entries + {n})
  }

  function Delete(s: Maps, n: Net): (r: Maps)
    requires ValidNet(n)
  {
    var t := if n.v6 then s.(v6 := s.v6 - {Key(n)}) else s.(v4 := s.v4 - {Key(n)});
    t.(entries := s.entries - {n})
  }

  // ---- Messages ----

  datatype Applied = Changed(maps: Maps) | Ignored

  /** Text to prefix: the foreign CIDR parser, which only yields real prefixes. */
  ghost predicate ParserOk(parse: string -> Option<Net>) {
    forall s :: parse(s).Some? ==> ValidNet(parse(s).value)
  }

  /** One published message, already split at white space: "add CIDR", "del CIDR" or a bare CIDR. */
  function ApplyEvent(c: Config, parse: string -> Option<Net>, s: Maps, fields: seq<string>): (r: Applied)
    requires ValidConfig(c) && ParserOk(parse)
  {
    if |fields| == 0 then Ignored
    else
      var tagged := fields[0] == "add" || fields[0] == "del";
      if tagged && |fields| < 2 then Ignored
      else
        var cidr := if tagged then fields[1] else fields[0];
        match parse(cidr)
        case None => Ignored
        case Some(raw) =>
          match RustNormalize(c, raw)
          case Reject(_) => Ignored
          case Accept(n) =>
            AcceptedIsAcceptable(c, raw);
            Changed(if fields[0] == "del" then Delete(s, n) else Put(s, n))
  }

  function AfterEvent(c: Config, parse: string -> Option<Net>, s: Maps, fields: seq<string>): (r: Maps)
    requires ValidConfig(c) && ParserOk(parse)
  {
    match ApplyEvent(c, parse, s, fields)
    case Changed(t) => t
    case Ignored => s
  }

  /** The text is a prefix the normaliser accepts. */
  predicate Accepts(c: Config, parse: string -> Option<Net>, text: string)
    requires ValidConfig(c) && ParserOk(parse)
  {
    parse(text).Some? && RustNormalize(c, parse(text).value).Accept?
  }

  function AcceptedCount(c: Config, parse: string -> Option<Net>, items: seq<string>): (k: nat)
    requires ValidConfig(c) && ParserOk(parse)
  {
    if items == [] then 0
    else AcceptedCount(c, parse, items[..|items| - 1]) + if Accepts(c, parse, items[|items| - 1]) then 1 else 0
  }

  /** Seeding is adding every member of the snapshot. */
  function AfterSeed(c: Config, parse: string -> Option<Net>, s: Maps, items: seq<string>): (r: Maps)
    requires ValidConfig(c) && ParserOk(parse)
  {
    if items == [] then s
    else AfterEvent(c, parse, AfterSeed(c, parse, s, items[..|items| - 1]), ["add", items[|items| - 1]])
  }

  function AfterEvents(c: Config, parse: string -> Option<Net>, s: Maps, msgs: seq<seq<string>>): (r: Maps)
    requires ValidConfig(c) && ParserOk(parse)
  {
    if msgs == [] then s
    else AfterEvent(c, parse, AfterEvents(c, parse, s, msgs[..|msgs| - 1]), msgs[|msgs| - 1])
  }

  /** A message without a tag adds. */
  lemma BareIsAdd(c: Config, parse: string -> Option<Net>, s: Maps, text: string)
    requires ValidConfig(c) && ParserOk(parse) && text != "add" && text != "del"
    ensures ApplyEvent(c, parse, s, [text]) == ApplyEvent(c, parse, s, ["add", text])
  {
    hide RustNormalize;
    assert "add"[0] != "del"[0];
  }

  // ---- What every run keeps ----

  /** The entries are all acceptable and are exactly the keys of the two tries. */
  ghost predicate Safe(c: Config, s: Maps)
    requires ValidConfig(c)
  {
    && (forall n :: n in s.entries ==> Acceptable(c, n) && Key(n) in Trie(s, n.v6))
    && AllListed(s, false) && AllListed(s, true)
  }

  ghost predicate AllListed(s: Maps, v6: bool) {
    forall k :: k in Trie(s, v6) ==> Listed(s, v6, k) && Trie(s, v6)[k] == 1
  }

  ghost predicate Listed(s: Maps, v6: bool, k: Bits) {
    exists n :: n in s.entries && n.v6 == v6 && Key(n) == k
  }

  /** Masked prefixes with the same family and bits are the same prefix. */
  lemma MaskedByKey(a: Net, b: Net)
    requires ValidNet(a) && ValidNet(b) && Masked(a) == a && Masked(b) == b && a.v6 == b.v6 && Key(a) == Key(b)
    ensures a == b
  {
    assert |Key(a)| == a.len && |Key(b)| == b.len;
  }

  lemma PutSafe(c: Config, s: Maps, n: Net)
    requires ValidConfig(c) && Safe(c, s) && Acceptable(c, n)
    ensures Safe(c, Put(s, n))
  {
    hide Acceptable, AllListed;
    AcceptableIsValid(c, n);
    PutListed(s, n, false);
    PutListed(s, n, true);
  }

  lemma PutListed(s: Maps, n: Net, v6: bool)
    requires ValidNet(n) && AllListed(s, v6)
    ensures AllListed(Put(s, n), v6)
  {
    hide ValidNet;
    var t := Put(s, n);
    assert n in t.entries;
    forall k | k in Trie(t, v6) ensures Listed(t, v6, k) && Trie(t, v6)[k] == 1 {
      if k in Trie(s, v6) {
        assert Listed(s, v6, k) && Trie(s, v6)[k] == 1;
        var x :| x in s.entries && x.v6 == v6 && Key(x) == k;
        assert x in t.entries;
      }
    }
  }

  lemma AcceptableIsValid(c: Config, n: Net)
    requires ValidConfig(c) && Acceptable(c, n)
    ensures ValidNet(n) && Masked(n) == n
  {
  }

  lemma DeleteSafe(c: Config, s: Maps, n: Net)
    requires ValidConfig(c) && Safe(c, s) && Acceptable(c, n)
    ensures Safe(c, Delete(s, n))
  {
    hide Acceptable, Masked, AllListed;
    AcceptableIsValid(c, n);
    var t := Delete(s, n);
    forall x | x in t.entries ensures Key(x) in Trie(t, x.v6) {
      AcceptableIsValid(c, x);
      if x.v6 == n.v6 && Key(x) == Key(n) { MaskedByKey(x, n); }
    }
    DeleteListed(s, n, false);
    DeleteListed(s, n, true);
  }

  lemma DeleteListed(s: Maps, n: Net, v6: bool)
    requires ValidNet(n) && AllListed(s, v6)
    ensures AllListed(Delete(s, n), v6)
  {
    hide ValidNet;
    var t := Delete(s, n);
    forall k | k in Trie(t, v6) ensures Listed(t, v6, k) && Trie(t, v6)[k] == 1 {
      assert Listed(s, v6, k) && Trie(s, v6)[k] == 1;
      var x :| x in s.entries && x.v6 == v6 && Key(x) == k;
      assert x in t.entries;
    }
  }

  lemma EventSafe(c: Config, parse: string -> Option<Net>, s: Maps, fields: seq<string>)
    requires ValidConfig(c) && ParserOk(parse) && Safe(c, s)
    ensures Safe(c, AfterEvent(c, parse, s, fields))
  {
    hide Safe, Acceptable, RustNormalize;
    if |fields| > 0 {
      var tagged := fields[0] == "add" || fields[0] == "del";
      if !tagged || |fields| >= 2 {
        var raw := parse(if tagged then fields[1] else fields[0]);
        if raw.Some? && RustNormalize(c, raw.value).Accept? {
          AcceptedIsAcceptable(c, raw.value);
          var n := RustNormalize(c, raw.value).net;
          PutSafe(c, s, n);
          DeleteSafe(c, s, n);
        }
      }
    }
  }

  lemma {:induction false} SeedSafe(c: Config, parse: string -> Option<Net>, s: Maps, items: seq<string>)
    requires ValidConfig(c) && ParserOk(parse) && Safe(c, s)
    ensures Safe(c, AfterSeed(c, parse, s, items))
  {
    hide Safe, AfterEvent;
    if items != [] {
      SeedSafe(c, parse, s, items[..|items| - 1]);
      EventSafe(c, parse, AfterSeed(c, parse, s, items[..|items| - 1]), ["add", items[|items| - 1]]);
    }
  }

  lemma {:induction false} EventsSafe(c: Config, parse: string -> Option<Net>, s: Maps, msgs: seq<seq<string>>)
    requires ValidConfig(c) && ParserOk(parse) && Safe(c, s)
    ensures Safe(c, AfterEvents(c, parse, s, msgs))
  {
    hide Safe, AfterEvent;
    if msgs != [] {
      EventsSafe(c, parse, s, msgs[..|msgs| - 1]);
      EventSafe(c, parse, AfterEvents(c, parse, s, msgs[..|msgs| - 1]), msgs[|msgs| - 1]);
    }
  }

  /** The loader's maps as it holds them, changed in place by the seed loop and each message. */
  class Loader {
    const config: Config
    const parse: string -> Option<Net>
    var maps: Maps

    ghost predicate Valid()
      reads this
    {
      ValidConfig(config) && ParserOk(parse) && Safe(config, maps)
    }

    constructor (config: Config, parse: string -> Option<Net>)
      requires ValidConfig(config) && ParserOk(parse)
      ensures Valid() && maps == EMPTY && this.config == config && this.parse == parse
    {
      this.config, this.parse, maps := config, parse, EMPTY;
    }

    method Apply(fields: seq<string>) returns (ok: bool)
      requires Valid()
      modifies this
      ensures Valid() && maps == AfterEvent(config, parse, old(maps), fields)
      ensures !ok ==> maps == old(maps)
      ensures |fields| == 2 && fields[0] in {"add", "del"} ==> (ok <==> Accepts(config, parse, fields[1]))
      ensures |fields| == 1 && fields[0] !in {"add", "del"} ==> (ok <==> Accepts(config, parse, fields[0]))
    {
      EventSafe(config, parse, maps, fields);
      var r := ApplyEvent(config, parse, maps, fields);
      ok := r.Changed?;
      if ok {
        maps := r.maps;
      }
    }

    /** Puts every accepted member of a snapshot; rejected ones are counted, not fatal. */
    method Seed(items: seq<string>) returns (accepted: nat, rejected: nat)
      requires Valid()
      modifies this
      ensures Valid() && maps == AfterSeed(config, parse, old(maps), items)
      ensures accepted == AcceptedCount(config, parse, items) && rejected == |items| - accepted
    {
      accepted, rejected := 0, 0;
      var i := 0;
      while i < |items|
        invariant i <= |items| && accepted == AcceptedCount(config, parse, items[..i]) && rejected == i - accepted
        invariant Valid() && maps == AfterSeed(config, parse, old(maps), items[..i])
      {
        assert items[..i + 1][..i] == items[..i];
        var ok := Apply(["add", items[i]]);
        if ok {
          accepted := accepted + 1;
        } else {
          rejected := rejected + 1;
        }
        i := i + 1;
      }
      assert items[..i] == items;
    }
  }

  // ---- The packet decision ----

  datatype Action = Pass | Drop

  /** Counters: v4 drop, v4 pass, v6 drop, v6 pass, parse error. */
  datatype Verdict = Verdict(action: Action, stat: Option<nat>)

  /** The two bytes of an EtherType. */
  function TypeAt(packet: seq<Byte>, off: nat): (t: Option<(Byte, Byte)>) {
    if off + 2 > |packet| then None else Some((packet[off], packet[off + 1]))
  }

  const IPV4 := (0x08 as Byte, 0x00 as Byte)
  const IPV6 := (0x86 as Byte, 0xDD as Byte)
  const VLAN := (0x81 as Byte, 0x00 as Byte)
  const QINQ := (0x88 as Byte, 0xA8 as Byte)

  function Hit(t: map<Bits, nat>, src: Bits): (h: bool) {
    match Longest(t, src)
    case None => false
    case Some(v) => v != 0
  }

  /** The kernel program: parse at most one VLAN tag, look the source up, fail open. */
  method TryXdp(s: Maps, packet: seq<Byte>) returns (v: Verdict)
    ensures v.action == Drop <==> var src := Source(packet); src.Some? && Hit(Trie(s, src.value.0), src.value.1)
    ensures v.stat == var src := Source(packet);
      if src.Some? then Some((if src.value.0 then 2 else 0) + if v.action == Drop then 0 else 1)
      else if Truncated(packet) then Some(4) else None
  {
    var proto := TypeAt(packet, 12);
    if proto.None? {
      return Verdict(Pass, Some(4));
    }
    var l3 := 14;
    if proto.value == VLAN || proto.value == QINQ {
      proto := TypeAt(packet, 16);
      if proto.None? {
        return Verdict(Pass, Some(4));
      }
      l3 := 18;
    }
    if proto.value == IPV4 {
      if l3 + 12 + 4 > |packet| {
        return Verdict(Pass, Some(4));
      }
      FieldBits(packet, l3 + 12, 4);
      var hit := Hit(s.v4, Slice(packet, 8 * (l3 + 12), 32));
      v := if hit then Verdict(Drop, Some(0)) else Verdict(Pass, Some(1));
    } else if proto.value == IPV6 {
      if l3 + 8 + 16 > |packet| {
        return Verdict(Pass, Some(4));
      }
      FieldBits(packet, l3 + 8, 16);
      var hit := Hit(s.v6, Slice(packet, 8 * (l3 + 8), 128));
      v := if hit then Verdict(Drop, Some(2)) else Verdict(Pass, Some(3));
    } else {
      v := Verdict(Pass, None);
    }
  }

  lemma FieldBits(packet: seq<Byte>, off: nat, n: nat)
    requires off + n <= |packet|
    ensures Slice(packet, 8 * off, 8 * n) == Slice(packet[off..off + n], 0, 8 * n)
  {
    hide BitOf;
    forall i | 0 <= i < 8 * n ensures Slice(packet, 8 * off, 8 * n)[i] == Slice(packet[off..off + n], 0, 8 * n)[i] {
      assert (8 * off + i) / 8 == off + i / 8 && (8 * off + i) % 8 == i % 8;
      assert GetBit(packet, 8 * off + i) == GetBit(packet[off..off + n], i);
    }
  }

  /** Where the network header starts and what it is, past an optional single VLAN tag. */
  ghost function Header(packet: seq<Byte>): (h: Option<(nat, (Byte, Byte))>) {
    var outer := TypeAt(packet, 12);
    if outer.None? then None
    else if outer.value != VLAN && outer.value != QINQ then Some((14, outer.value))
    else match TypeAt(packet, 16)
      case None => None
      case Some(inner) => Some((18, inner))
  }

  /** The source address of a header: bytes 12..16 for IPv4 (section 3.1 of RFC 791), bytes 8..24 for IPv6
      (section 3 of RFC 8200). */
  ghost function SourceBits(packet: seq<Byte>, l3: nat, kind: (Byte, Byte)): (r: Option<(bool, Bits)>) {
    if kind == IPV4 && |packet| >= l3 + 16 then Some((false, Slice(packet[l3 + 12..l3 + 16], 0, 32)))
    else if kind == IPV6 && |packet| >= l3 + 24 then Some((true, Slice(packet[l3 + 8..l3 + 24], 0, 128)))
    else None
  }

  ghost function Source(packet: seq<Byte>): (r: Option<(bool, Bits)>) {
    match Header(packet)
    case None => None
    case Some((l3, kind)) => SourceBits(packet, l3, kind)
  }

  /** An Ethernet or IP header that ends before the field that is needed. */
  ghost predicate Truncated(packet: seq<Byte>) {
    match Header(packet)
    case None => true
    case Some((_, kind)) => Source(packet).None? && (kind == IPV4 || kind == IPV6)
  }

  /** The source address of a header at `l3`, by its big-endian EtherType and as a number. */
  ghost function SourceAt(packet: seq<Byte>, l3: nat, kind: nat): (r: Option<(bool, nat)>) {
    if kind == 0x0800 && |packet| >= l3 + 16 then Some((false, BigEndian(packet[l3 + 12..l3 + 16])))
    else if kind == 0x86DD && |packet| >= l3 + 24 then Some((true, BigEndian(packet[l3 + 8..l3 + 24])))
    else None
  }

  ghost function SourceNumber(packet: seq<Byte>): (r: Option<(bool, nat)>) {
    if |packet| < 14 then None
    else
      var outer := BigEndian(packet[12..14]);
      if outer != 0x8100 && outer != 0x88A8 then SourceAt(packet, 14, outer)
      else if |packet| < 18 then None
      else SourceAt(packet, 18, BigEndian(packet[16..18]))
  }

  lemma TwoByteNumber(b: seq<Byte>)
    requires |b| == 2
    ensures BigEndian(b) == 256 * (b[0] as nat) + b[1] as nat
  {
    assert b[..1] == [b[0]] && [b[0]][..0] == [];
    assert BigEndian([b[0]]) == b[0] as nat;
  }

  lemma Digits(a: nat, b: nat, x: nat, y: nat)
    requires b < 256 && y < 256
    ensures 256 * a + b == 256 * x + y <==> a == x && b == y
  {
  }

  lemma ByteDetermines(x: Byte, y: Byte)
    ensures x as nat == y as nat <==> x == y
  {
  }

  lemma TwoBytes(b: seq<Byte>, x: Byte, y: Byte)
    requires |b| == 2
    ensures BigEndian(b) == 256 * (x as nat) + y as nat <==> b[0] == x && b[1] == y
  {
    hide BigEndian;
    TwoByteNumber(b);
    Digits(b[0] as nat, b[1] as nat, x as nat, y as nat);
    ByteDetermines(b[0], x);
    ByteDetermines(b[1], y);
  }

  lemma TypeNumber(packet: seq<Byte>, off: nat)
    requires off + 2 <= |packet|
    ensures var t, n := TypeAt(packet, off).value, BigEndian(packet[off..off + 2]);
      && (t == IPV4 <==> n == 0x0800) && (t == IPV6 <==> n == 0x86DD)
      && (t == VLAN <==> n == 0x8100) && (t == QINQ <==> n == 0x88A8)
  {
    hide BigEndian;
    var b := packet[off..off + 2];
    TwoBytes(b, 0x08, 0x00);
    TwoBytes(b, 0x86, 0xDD);
    TwoBytes(b, 0x81, 0x00);
    TwoBytes(b, 0x88, 0xA8);
  }

  ghost function AsNumber(src: Option<(bool, Bits)>): (r: Option<(bool, nat)>) {
    match src
    case None => None
    case Some((v6, bits)) => Some((v6, Number(bits)))
  }

  lemma SourceBitsNumber(packet: seq<Byte>, l3: nat, off: nat)
    requires off + 2 <= |packet|
    ensures AsNumber(SourceBits(packet, l3, TypeAt(packet, off).value)) ==
      SourceAt(packet, l3, BigEndian(packet[off..off + 2]))
  {
    hide Slice, BigEndian, Number;
    TypeNumber(packet, off);
    hide IPV4, IPV6, VLAN, QINQ;
    if |packet| >= l3 + 16 { BitsAreBigEndian(packet[l3 + 12..l3 + 16]); }
    if |packet| >= l3 + 24 { BitsAreBigEndian(packet[l3 + 8..l3 + 24]); }
  }

  /** The source as bits and as a number, with the offsets and EtherTypes of the wire written out. */
  lemma SourceByValue(packet: seq<Byte>)
    ensures AsNumber(Source(packet)) == SourceNumber(packet)
  {
    hide SourceBits, BigEndian, AsNumber, SourceAt;
    NoSource();
    if |packet| >= 14 {
      TypeNumber(packet, 12);
      SourceBitsNumber(packet, 14, 12);
    }
    if |packet| >= 18 { SourceBitsNumber(packet, 18, 16); }
  }

  lemma NoSource()
    ensures AsNumber(None) == None
  {
  }

  /** A source is blocked exactly when some entry covers it. */
  lemma BlockedIff(c: Config, s: Maps, v6: bool, src: Bits)
    requires ValidConfig(c) && Safe(c, s)
    ensures Hit(Trie(s, v6), src) <==> exists n :: n in s.entries && InNet(n, v6, src)
  {
    hide Acceptable;
    var t := Trie(s, v6);
    LongestIsExact(t, src, Longest(t, src));
    if Longest(t, src).Some? {
      var j: nat :| IsLongestAt(t, src, j) && t[src[..j]] == Longest(t, src).value;
      assert Listed(s, v6, src[..j]);
      var n :| n in s.entries && n.v6 == v6 && Key(n) == src[..j];
      assert InNet(n, v6, src);
    } else {
      forall n | n in s.entries ensures !InNet(n, v6, src) {
        assert Key(n) <= src ==> src[..|Key(n)|] == Key(n);
      }
    }
  }

  /** No safe map blocks an address inside a never-block range of its own family. */
  lemma ProtectedNeverHit(c: Config, s: Maps, v6: bool, src: Bits, i: nat)
    requires ValidConfig(c) && Safe(c, s) && i < |c.neverBlock|
    requires InNet(c.neverBlock[i], v6, src)
    ensures !Hit(Trie(s, v6), src)
  {
    hide RustOverlaps;
    BlockedIff(c, s, v6, src);
    forall n | n in s.entries ensures !InNet(n, v6, src) {
      OverlapIsSharedAddress(n, c.neverBlock[i]);
    }
  }

  /** From empty maps, after any seed and any messages, no packet whose source lies in a
      never-block range is dropped. */
  lemma NeverBlockHolds(c: Config, parse: string -> Option<Net>, items: seq<string>, msgs: seq<seq<string>>,
                        packet: seq<Byte>, i: nat)
    requires ValidConfig(c) && ParserOk(parse) && i < |c.neverBlock|
    requires Source(packet).Some? && InNet(c.neverBlock[i], Source(packet).value.0, Source(packet).value.1)
    ensures var s := AfterEvents(c, parse, AfterSeed(c, parse, EMPTY, items), msgs);
      Safe(c, s) && !Hit(Trie(s, Source(packet).value.0), Source(packet).value.1)
  {
    assert Safe(c, EMPTY);
    SeedSafe(c, parse, EMPTY, items);
    EventsSafe(c, parse, AfterSeed(c, parse, EMPTY, items), msgs);
    ProtectedNeverHit(c, AfterEvents(c, parse, AfterSeed(c, parse, EMPTY, items), msgs),
                      Source(packet).value.0, Source(packet).value.1, i);
  }

  /** A loader seeded from a snapshot and driven by messages, and then a packet: it is dropped exactly when
      its source is in an entry, and passes when its source is in a never-block range. */
  method DecideAfter(c: Config, parse: string -> Option<Net>, items: seq<string>, msgs: seq<seq<string>>,
                     packet: seq<Byte>) returns (v: Verdict)
    requires ValidConfig(c) && ParserOk(parse)
    ensures v.action == Drop <==>
      && Source(packet).Some?
      && exists n ::
           && n in AfterEvents(c, parse, AfterSeed(c, parse, EMPTY, items), msgs).entries
           && InNet(n, Source(packet).value.0, Source(packet).value.1)
    ensures Source(packet).Some? ==>
      forall i :: 0 <= i < |c.neverBlock| && InNet(c.neverBlock[i], Source(packet).value.0, Source(packet).value.1) ==>
        v.action == Pass
  {
    hide RustNormalize, Safe, Source, Hit, InNet;
    var loader := new Loader(c, parse);
    var _, _ := loader.Seed(items);
    ghost var seeded := loader.maps;
    var i := 0;
    while i < |msgs|
      invariant i <= |msgs| && fresh(loader) && loader.Valid()
      invariant loader.maps == AfterEvents(c, parse, seeded, msgs[..i])
    {
      assert msgs[..i + 1][..i] == msgs[..i];
      var _ := loader.Apply(msgs[i]);
      i := i + 1;
    }
    assert msgs[..i] == msgs;
    v := TryXdp(loader.maps, packet);
    ghost var src := Source(packet);
    if src.Some? {
      BlockedIff(c, loader.maps, src.value.0, src.value.1);
      forall k | 0 <= k < |c.neverBlock| && InNet(c.neverBlock[k], src.value.0, src.value.1)
        ensures v.action == Pass
      {
        ProtectedNeverHit(c, loader.maps, src.value.0, src.value.1, k);
      }
    }
  }
}
