/**
 celestial_closure_decode(): the framing check, the second parse and the build,
 and the round trip through celestial_closure_write().
 */
module ClosureDecode {
  import opened Packets
  import opened ClosureCodec
  import opened ClosureRoundTrip
  import opened ClosurePackets
  import opened ClosureReading
  import opened ClosureIndex
  import opened ClosureBuild

  /** Parsed fragments are valid ones, but for their depths. */
  lemma {:induction false} ParsedValid(b: seq<Byte>, n: nat, w: int, h: int, total: nat)
    requires ParseFragments(b, n, w, h, total).Got?
    requires AllDepthsValid(ParseFragments(b, n, w, h, total).value)
    ensures AllFragmentsValid(ParseFragments(b, n, w, h, total).value, w, h)
    decreases n
  {
    hide TotalMax, ParseRuns, AllValid;
    if n > 0 {
      var f := ParseFragment(b, w, h, total);
      var fs := ParseFragments(f.rest, n - 1, w, h, total + |f.value.values|).value;
      DepthsCons(f.value, fs);
      ParsedValid(f.rest, n - 1, w, h, total + |f.value.values|);
      FragmentParsed(b, w, h, total);
      hide ParseFragment;
      ValidCons(f.value, fs, w, h);
    }
  }

  lemma FragmentParsed(b: seq<Byte>, w: int, h: int, total: nat)
    requires ParseFragment(b, w, h, total).Got?
    ensures var f := ParseFragment(b, w, h, total).value;
      && f.width != 0 && f.height != 0 && f.x + f.width <= w && f.y + f.height <= h && AllValid(f.values) && Typed(f)
  {
    CellsNonzero(b[3], b[4]);
    hide TotalMax, ParseRuns;
  }

  lemma ValidCons(f: Fragment, fs: seq<Fragment>, w: int, h: int)
    requires FragmentValid(f, w, h) && AllFragmentsValid(fs, w, h)
    ensures AllFragmentsValid([f] + fs, w, h)
  {
    hide FragmentValid;
  }

  /** When a payload decodes: it must be framed, its count within the fragment
   limit, and then only the window, an overlap or a contradicted sky exit can
   turn it away. */
  ghost predicate Decodable(data: seq<Byte>, w: int, h: int) {
    && |data| <= PAYLOAD_MAX && 6 <= |data| && Framed(data, w, h)
    && Word16(data[4..6]) <= FRAGMENTS_MAX && WindowValid(w, h)
    && var p := Parse(data, w, h);
       p.Got? && Disjoint(p.value) && SkyClear(p.value)
  }

  method ReadPreamble(reader: Reader) returns (generation: nat, count: nat)
    requires reader.Valid() && reader.error == NoError && 6 <= |reader.Rest()|
    modifies reader
    ensures reader.Valid() && reader.error == NoError && reader.Rest() == old(reader.Rest())[6..]
    ensures generation == Word32(old(reader.Rest())[..4]) && generation < UINT32
    ensures count == Word16(old(reader.Rest())[4..6]) && count < UINT16
  {
    hide Word32, Word16;
    ghost var data := reader.Rest();
    generation := reader.ReadUint32();
    assert data[4..][..2] == data[4..6];
    count := reader.ReadUint16();
  }

  /** The fragments of a payload and nothing after them. */
  method ReadAll(reader: Reader, count: nat, w: int, h: int) returns (ok: bool, fs: seq<Fragment>)
    requires reader.Valid() && reader.error == NoError && count < UINT16
    modifies reader
    ensures var p := ParseFragments(old(reader.Rest()), count, w, h, 0);
      && (ok <==> p.Got? && p.rest == [])
      && (ok ==> fs == p.value && AllTyped(fs) && |fs| == count)
  {
    hide ParseFragments, AllTyped;
    ok, fs := ReadFragments(reader, count, w, h);
    var finished := reader.Finish();
    ok := ok && finished;
  }

  /** The second parse of a framed payload: no check of its own can fail but
   that of the fragment limit. */
  method ParseFramed(data: seq<Byte>, w: int, h: int) returns (ok: bool, generation: nat, fs: seq<Fragment>)
    requires 6 <= |data| && Framed(data, w, h)
    ensures ok <==> Word16(data[4..6]) <= FRAGMENTS_MAX
    ensures ok ==> generation == Word32(data[..4]) && generation < UINT32
    ensures ok ==> Parse(data, w, h) == Got(fs, []) && AllTyped(fs) && |fs| == Word16(data[4..6])
  {
    hide Framed, ParseFragments, Word32, Word16, AllDepthsValid, CountValid, AllTyped;
    ParsersAgree(data, w, h);
    var reader := new Reader(data);
    var count;
    generation, count := ReadPreamble(reader);
    if !CountValid(count, |data|, w, h) {
      return false, 0, [];
    }
    ok, fs := ReadAll(reader, count, w, h);
  }

  /** celestial_closure_decode() */
  method Decode(data: seq<Byte>, w: int, h: int) returns (c: Closure?)
    ensures c != null <==> Decodable(data, w, h)
    ensures c != null ==> c.Valid() && c.width == w && c.height == h
    ensures c != null ==> c.generation == Word32(data[..4]) && Parse(data, w, h) == Got(c.fragments, [])
  {
    hide Framed, ParseFragments, Disjoint, SkyClear, Word32, Word16;
    if |data| > PAYLOAD_MAX {
      return null;
    }
    var framed := PayloadFramed(data, w, h);
    if !framed {
      return null;
    }
    FramedLength(data, w, h);
    var parsed, generation, fs := ParseFramed(data, w, h);
    if !parsed {
      return null;
    }
    ParsersAgree(data, w, h);
    ParsedValid(data[6..], Word16(data[4..6]), w, h, 0);
    hide AllTyped, AllFragmentsValid, AllDepthsValid;
    c := Build(generation, w, h, fs);
  }

  lemma FramedLength(data: seq<Byte>, w: int, h: int)
    requires Framed(data, w, h)
    ensures 6 <= |data|
  {}

  /** Every closure that fits in a packet decodes, to itself. */
  lemma EncodedDecodes(generation: nat, fs: seq<Fragment>, w: int, h: int)
    requires generation < UINT32 && Buildable(fs, w, h) && |Encode(generation, fs)| <= PAYLOAD_MAX
    ensures var data := Encode(generation, fs);
      && Decodable(data, w, h)
      && Word32(data[..4]) == generation && Parse(data, w, h) == Got(fs, [])
  {
    DisjointTotal(fs, w, h);
    PayloadRoundTrip(generation, fs, w, h);
    hide Framed, ParseFragments, Disjoint, SkyClear, Word32, Word16, AllTyped, AllFragmentsValid, Encode, TotalMax;
  }

  lemma EncodedSize(generation: nat, fs: seq<Fragment>)
    requires generation < UINT32 && |fs| < UINT16 && AllTyped(fs)
    ensures |Encode(generation, fs)| == 6 + FragmentsSize(fs)
  {
    SizeIsLength(fs);
  }

  /** Writing a closure to an empty packet and decoding what it then holds
   gives a closure with the same generation and fragments. */
  method WriteThenDecode(c: Closure, size: nat, expand: nat) returns (written: bool, d: Closure?)
    requires c.Valid()
    ensures written <==> 6 + FragmentsSize(c.fragments) <= PAYLOAD_MAX
    ensures written <==> d != null
    ensures d != null ==> d.Valid() && d.width == c.width && d.height == c.height
    ensures d != null ==> d.generation == c.generation && d.fragments == c.fragments
  {
    hide Encode, Decodable, Disjoint, SkyClear, Word32, AllTyped, AllFragmentsValid, FragmentsSize, ParseFragments;
    EncodedSize(c.generation, c.fragments);
    var packet := new Writer(size, expand);
    written := Write(packet, c.generation, c.fragments);
    if !written {
      return false, null;
    }
    EncodedDecodes(c.generation, c.fragments, c.width, c.height);
    assert [] + Encode(c.generation, c.fragments) == Encode(c.generation, c.fragments);
    var data := packet.data[..packet.len];
    d := Decode(data, c.width, c.height);
  }
}
