/**
  Nothing else decodes: every frame the decoder accepts starts with headers built
  from fields, with at most two VLAN tags and eight extension headers.
*/
module PacketParse {
  import opened Wire
  import opened Packet
  import opened PacketBuild

  lemma {:induction false} ParseTags(frame: Bytes, at: nat, count: nat) returns (tags: seq<Tag>)
    requires 2 <= at <= |frame| && count <= 2
    requires SkipVlans(frame, at, Word(frame[at - 2], frame[at - 1]), count).Ok?
    ensures var (offset, etherType) := SkipVlans(frame, at, Word(frame[at - 2], frame[at - 1]), count).value;
            && TagsValid(tags) && count + |tags| <= 2 && etherType != 0x8100 && etherType != 0x88a8
            && offset == at + 4 * |tags| <= |frame| && frame[at - 2..offset] == Tagged(tags, etherType)
    decreases 2 - count
  {
    var kind := Word(frame[at - 2], frame[at - 1]);
    if IsVlan(kind) {
      var rest := ParseTags(frame, at + 4, count + 1);
      var (offset, etherType) := SkipVlans(frame, at, kind, count).value;
      tags := [Tag(kind, Word(frame[at], frame[at + 1]))] + rest;
      OctetsOfWord(frame[at - 2], frame[at - 1]);
      OctetsOfWord(frame[at], frame[at + 1]);
      assert tags[1..] == rest;
      assert frame[at - 2..offset]
          == [frame[at - 2], frame[at - 1]] + [frame[at], frame[at + 1]] + frame[at + 2..offset];
    } else {
      tags := [];
      OctetsOfWord(frame[at - 2], frame[at - 1]);
    }
  }

  function Zeros(size: nat): (b: Bytes)
    ensures |b| == size
  {
    seq(size, _ => 0)
  }

  lemma Parse4(network: Bytes) returns (h: Header4, size: nat)
    requires DecodeIpv4(network).Ok?
    ensures h.Valid() && h.Length() <= |network| && h.Length() + size < 0x1_0000
    ensures network[..h.Length()] == Build4(h, Zeros(size))[..h.Length()]
  {
    Ipv4Bounds(network);
    hide Word, Octets, DecodeIpv4, Build4;
    var words, w := network[0] % 16, Word(network[6], network[7]);
    var length := words * 4;
    size := Word(network[2], network[3]) - length;
    h := Header4(network[1], Word(network[4], network[5]), w >= 0x8000, w % 0x8000 >= 0x4000, w % 0x4000 >= 0x2000,
                 w % 0x2000, network[8], network[9], Word(network[10], network[11]), network[12..16], network[16..20],
                 network[20..length]);
    assert |h.options| % 4 == 0 by {
      assert |h.options| == 4 * (words - 5);
    }
    SplitWord(w);
    Parsed4(network, h, size);
  }

  lemma Ipv4Bounds(network: Bytes)
    requires DecodeIpv4(network).Ok?
    ensures |network| >= 20 && network[0] / 16 == 4
    ensures 20 <= network[0] % 16 * 4 <= |network| && network[0] % 16 * 4 <= Word(network[2], network[3])
  {
  }

  /** The three flags and the offset make up the fragment word. */
  lemma SplitWord(w: word)
    ensures (if w >= 0x8000 then 0x8000 else 0) + (if w % 0x8000 >= 0x4000 then 0x4000 else 0)
            + (if w % 0x4000 >= 0x2000 then 0x2000 else 0) + w % 0x2000 == w
  {
    var eighths := w / 0x2000;
    assert w == 0x2000 * eighths + w % 0x2000;
    assert w % 0x4000 == 0x2000 * (eighths % 2) + w % 0x2000;
    assert w % 0x8000 == 0x2000 * (eighths % 4) + w % 0x2000;
  }

  lemma Join(b: Bytes, from: nat, middle: nat, to: nat)
    requires from <= middle <= to <= |b|
    ensures b[from..middle] + b[middle..to] == b[from..to]
  {
  }

  lemma WordSlice(b: Bytes, at: nat)
    requires at + 2 <= |b|
    ensures Octets(Word(b[at], b[at + 1])) == b[at..at + 2]
  {
    OctetsOfWord(b[at], b[at + 1]);
  }

  lemma Parsed4(network: Bytes, h: Header4, size: nat)
    requires DecodeIpv4(network).Ok? && h.Valid() && h.Length() <= |network|
    requires h.Length() == network[0] % 16 * 4 && h.Length() + size == Word(network[2], network[3])
    requires h.service == network[1] && h.id == Word(network[4], network[5])
    requires h.FragmentWord() == Word(network[6], network[7])
    requires h.ttl == network[8] && h.protocol == network[9] && h.checksum == Word(network[10], network[11])
    requires h.source == network[12..16] && h.destination == network[16..20] && h.options == network[20..h.Length()]
    ensures network[..h.Length()] == Build4(h, Zeros(size))[..h.Length()]
  {
    assert 0x40 + h.Length() / 4 == network[0];
    hide Header4.FragmentWord, Octets, Word, DecodeIpv4, Build4;
    WordSlice(network, 2);
    WordSlice(network, 4);
    WordSlice(network, 6);
    WordSlice(network, 10);
    Rebuilt4(network, h, size);
    assert (network[0..h.Length()] + Zeros(size))[..h.Length()] == network[..h.Length()];
  }

  lemma Rebuilt4(network: Bytes, h: Header4, size: nat)
    requires h.Valid() && h.Length() + size < 0x1_0000 && h.Length() <= |network|
    requires 0x40 + h.Length() / 4 == network[0] && h.service == network[1] && h.ttl == network[8]
    requires h.protocol == network[9] && Octets(h.Length() + size) == network[2..4] && Octets(h.id) == network[4..6]
    requires Octets(h.FragmentWord()) == network[6..8] && Octets(h.checksum) == network[10..12]
    requires h.source == network[12..16] && h.destination == network[16..20] && h.options == network[20..h.Length()]
    ensures Build4(h, Zeros(size)) == network[0..h.Length()] + Zeros(size)
  {
    hide Header4.FragmentWord, Octets, Zeros;
    assert [0x40 + h.Length() / 4, h.service] == network[0..2] && [h.ttl, h.protocol] == network[8..10];
    Join(network, 0, 2, 4);
    Join(network, 0, 4, 6);
    Join(network, 0, 6, 8);
    Join(network, 0, 8, 10);
    Join(network, 0, 10, 12);
    Join(network, 0, 12, 16);
    Join(network, 0, 16, 20);
    Join(network, 0, 20, h.Length());
  }

  lemma {:induction false} ParseChain(network: Bytes, limit: nat, chain: Chain) returns (extensions: seq<Extension>)
    requires limit <= |network| && chain.headerLength <= limit && !chain.noninitialFragment
    requires WalkExtensions(network, limit, chain).Ok?
    ensures var end := WalkExtensions(network, limit, chain).value;
            && Readable(extensions, end.protocol, chain.budget)
            && chain.protocol == FirstKind(extensions, end.protocol)
            && Chained(extensions, end.protocol) == network[chain.headerLength..end.headerLength]
    decreases chain.budget
  {
    var end, at := WalkExtensions(network, limit, chain).value, chain.headerLength;
    if chain.budget == 0 || !IsExtension(chain.protocol) {
      extensions := [];
    } else {
      var next := Extend(network, limit, chain).value;
      var e := Extension(chain.protocol, network[at + 1..next.headerLength]);
      ParsedExtension(network, limit, chain);
      var rest := [];
      if !next.noninitialFragment {
        rest := ParseChain(network, limit, next);
        ReadableMore(e, rest, end.protocol, chain.budget);
      }
      extensions := [e] + rest;
      ChainedMore(network, at, next.headerLength, end.headerLength, e, rest, end.protocol);
    }
  }

  lemma ChainedMore(network: Bytes, at: nat, next: nat, end: nat, e: Extension, rest: seq<Extension>, protocol: byte)
    requires at + 1 <= next <= end <= |network| && e.data == network[at + 1..next]
    requires FirstKind(rest, protocol) == network[at] && Chained(rest, protocol) == network[next..end]
    ensures Chained([e] + rest, protocol) == network[at..end] && FirstKind([e] + rest, protocol) == e.kind
  {
    assert ([e] + rest)[1..] == rest;
    Join(network, at, at + 1, next);
    Join(network, at, next, end);
    assert [network[at]] == network[at..at + 1];
  }

  lemma ReadableMore(e: Extension, rest: seq<Extension>, protocol: byte, budget: nat)
    requires e.Valid() && !e.Later() && budget > 0 && Readable(rest, protocol, budget - 1)
    ensures Readable([e] + rest, protocol, budget)
  {
    var all := [e] + rest;
    assert forall i :: 0 < i < |all| ==> all[i] == rest[i - 1];
  }

  lemma ParsedExtension(network: Bytes, limit: nat, chain: Chain)
    requires limit <= |network| && chain.headerLength <= limit && chain.budget > 0 && !chain.noninitialFragment
    requires IsExtension(chain.protocol) && Extend(network, limit, chain).Ok?
    ensures var next := Extend(network, limit, chain).value;
            var e := Extension(chain.protocol, network[chain.headerLength + 1..next.headerLength]);
            e.Valid() && e.Later() == next.noninitialFragment && next.protocol == network[chain.headerLength]
  {
    var next, at := Extend(network, limit, chain).value, chain.headerLength;
    var data := network[at + 1..next.headerLength];
    assert data[0] == network[at + 1] && data[1] == network[at + 2] && data[2] == network[at + 3];
  }

  lemma Parse6(network: Bytes) returns (h: Header6, size: nat)
    requires DecodeIpv6(network).Ok?
    ensures h.Valid() && h.Length() <= |network| && h.Length() - 40 + size < 0x1_0000
    ensures network[..h.Length()] == Build6(h, Zeros(size))[..h.Length()]
  {
    hide WalkExtensions, Chained, Readable;
    var limit := Min(40 + Word(network[4], network[5]), |network|);
    var end := WalkExtensions(network, limit, FirstHeader(network)).value;
    var extensions := ParseChain(network, limit, FirstHeader(network));
    h := Header6(network[0] % 16 * 16 + network[1] / 16, network[1] % 16 * 0x1_0000 + Word(network[2], network[3]),
                 network[7], end.protocol, network[8..24], network[24..40], extensions);
    assert h.Length() == end.headerLength;
    size := 40 + Word(network[4], network[5]) - end.headerLength;
    Parsed6(network, h, size);
  }

  lemma Parsed6(network: Bytes, h: Header6, size: nat)
    requires DecodeIpv6(network).Ok? && h.Valid() && h.Length() <= |network|
    requires h.Length() - 40 + size == Word(network[4], network[5])
    requires h.trafficClass == network[0] % 16 * 16 + network[1] / 16
    requires h.flowLabel == network[1] % 16 * 0x1_0000 + Word(network[2], network[3])
    requires h.hopLimit == network[7] && FirstKind(h.extensions, h.protocol) == network[6]
    requires h.source == network[8..24] && h.destination == network[24..40]
    requires Chained(h.extensions, h.protocol) == network[40..h.Length()]
    ensures network[..h.Length()] == Build6(h, Zeros(size))[..h.Length()]
  {
    hide Chained, Readable, WalkExtensions;
    assert h.flowLabel % 0x1_0000 == Word(network[2], network[3]) && h.flowLabel / 0x1_0000 == network[1] % 16;
    assert 0x60 + h.trafficClass / 16 == network[0] && h.trafficClass % 16 * 16 + h.flowLabel / 0x1_0000 == network[1];
    hide Octets, Word, DecodeIpv6, Build6;
    WordSlice(network, 2);
    WordSlice(network, 4);
    Rebuilt6(network, h, size);
    assert (network[0..h.Length()] + Zeros(size))[..h.Length()] == network[..h.Length()];
  }

  lemma Rebuilt6(network: Bytes, h: Header6, size: nat)
    requires h.Valid() && h.Length() - 40 + size < 0x1_0000 && h.Length() <= |network|
    requires 0x60 + h.trafficClass / 16 == network[0]
    requires h.trafficClass % 16 * 16 + h.flowLabel / 0x1_0000 == network[1]
    requires Octets(h.flowLabel % 0x1_0000) == network[2..4] && Octets(h.Length() - 40 + size) == network[4..6]
    requires h.hopLimit == network[7] && FirstKind(h.extensions, h.protocol) == network[6]
    requires h.source == network[8..24] && h.destination == network[24..40]
    requires Chained(h.extensions, h.protocol) == network[40..h.Length()]
    ensures Build6(h, Zeros(size)) == network[0..h.Length()] + Zeros(size)
  {
    hide Octets, Zeros, Chained, Readable, FirstKind;
    assert [0x60 + h.trafficClass / 16, h.trafficClass % 16 * 16 + h.flowLabel / 0x1_0000] == network[0..2];
    assert [FirstKind(h.extensions, h.protocol), h.hopLimit] == network[6..8];
    Join(network, 0, 2, 4);
    Join(network, 0, 4, 6);
    Join(network, 0, 6, 8);
    Join(network, 0, 8, 24);
    Join(network, 0, 24, 40);
    Join(network, 0, 40, h.Length());
  }

  lemma ParseFrame(f: Bytes) returns (tags: seq<Tag>, etherType: word)
    requires Decode(f).Ok?
    ensures TagsValid(tags) && |tags| <= 2 && 14 + 4 * |tags| <= |f| && (etherType == 0x0800 || etherType == 0x86dd)
    ensures DecodeNetwork(f[14 + 4 * |tags|..], etherType).Ok?
    ensures Decode(f).value.tuple.family == if etherType == 0x0800 then 4 else 6
    ensures f == Build(f[0..6], f[6..12], tags, etherType, f[14 + 4 * |tags|..])
  {
    hide DecodeIpv4, DecodeIpv6, SkipVlans, Tagged;
    tags := ParseTags(f, 14, 0);
    var (offset, inner) := SkipVlans(f, 14, Word(f[12], f[13]), 0).value;
    etherType := inner;
    assert f == f[0..6] + f[6..12] + f[12..offset] + f[offset..];
  }

  /** An IPv4 frame that decodes starts with tags and a header built from fields. */
  lemma Decoded4IsBuilt(f: Bytes) returns (tags: seq<Tag>, h: Header4, size: nat)
    requires Decode(f).Ok? && Decode(f).value.tuple.family == 4
    ensures TagsValid(tags) && |tags| <= 2 && h.Valid() && h.Length() + size < 0x1_0000
    ensures var at := 14 + 4 * |tags| + h.Length();
            at <= |f| && f[..at] == Build(f[0..6], f[6..12], tags, 0x0800, Build4(h, Zeros(size)))[..at]
  {
    hide Decode, DecodeIpv4, DecodeIpv6, Build4, Tagged;
    var etherType;
    tags, etherType := ParseFrame(f);
    var offset := 14 + 4 * |tags|;
    h, size := Parse4(f[offset..]);
    BuildPrefix(f[0..6], f[6..12], tags, etherType, f[offset..], Build4(h, Zeros(size)), h.Length());
  }

  /** An IPv6 frame that decodes starts with tags, a header and extension headers built from fields. */
  lemma Decoded6IsBuilt(f: Bytes) returns (tags: seq<Tag>, h: Header6, size: nat)
    requires Decode(f).Ok? && Decode(f).value.tuple.family == 6
    ensures TagsValid(tags) && |tags| <= 2 && h.Valid() && h.Length() - 40 + size < 0x1_0000
    ensures var at := 14 + 4 * |tags| + h.Length();
            at <= |f| && f[..at] == Build(f[0..6], f[6..12], tags, 0x86dd, Build6(h, Zeros(size)))[..at]
  {
    hide Decode, DecodeIpv4, DecodeIpv6, Build6, Tagged, Readable, Chained;
    var etherType;
    tags, etherType := ParseFrame(f);
    var offset := 14 + 4 * |tags|;
    h, size := Parse6(f[offset..]);
    BuildPrefix(f[0..6], f[6..12], tags, etherType, f[offset..], Build6(h, Zeros(size)), h.Length());
  }

  lemma BuildPrefix(destination: Mac, source: Mac, tags: seq<Tag>, etherType: word, a: Bytes, b: Bytes, n: nat)
    requires n <= |a| && n <= |b| && a[..n] == b[..n]
    ensures var at := 14 + 4 * |tags| + n;
            Build(destination, source, tags, etherType, a)[..at] == Build(destination, source, tags, etherType, b)[..at]
  {
    hide Tagged;
    var ahead := destination + source + Tagged(tags, etherType);
    assert (ahead + a)[..|ahead| + n] == ahead + a[..n];
    assert (ahead + b)[..|ahead| + n] == ahead + b[..n];
  }
}
