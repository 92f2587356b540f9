/** The segment walk to a JPEG's frame header, against the grammar of sections
    B.1.1.2 to B.1.1.4 and B.2.2 of ITU-T T.81. */
module JpegHeader {
  import opened Order

  type Byte = b: nat | b < 256

  datatype Frame = Frame(width: nat, height: nat, progressive: bool, samples: nat)

  /** How densely one component is sampled each way. */
  datatype Sampling = Sampling(h: nat, v: nat)

  function BigEndian(a: Byte, b: Byte): nat {
    256 * a + b
  }

  function Larger(a: nat, b: nat): nat {
    if a < b then b else a
  }

  function SamplingOf(components: seq<Byte>): seq<Sampling>
    requires |components| % 3 == 0
  {
    if components == [] then []
    else [Sampling(components[1] / 16, components[1] % 16)] + SamplingOf(components[3..])
  }

  function MaxH(s: seq<Sampling>): nat {
    if s == [] then 1 else Larger(s[0].h, MaxH(s[1..]))
  }

  function MaxV(s: seq<Sampling>): nat {
    if s == [] then 1 else Larger(s[0].v, MaxV(s[1..]))
  }

  /** One component's samples after subsampling. */
  function ComponentSamples(c: Sampling, width: nat, height: nat, hMax: nat, vMax: nat): nat
    requires hMax > 0 && vMax > 0
  {
    (width * c.h / hMax) * (height * c.v / vMax)
  }

  function SampleCount(s: seq<Sampling>, width: nat, height: nat, hMax: nat, vMax: nat): nat
    requires hMax > 0 && vMax > 0
  {
    if s == [] then 0
    else ComponentSamples(s[0], width, height, hMax, vMax) + SampleCount(s[1..], width, height, hMax, vMax)
  }

  lemma {:induction false} MaxIsPositive(s: seq<Sampling>)
    ensures MaxH(s) > 0 && MaxV(s) > 0
    ensures forall c :: c in s ==> c.h <= MaxH(s) && c.v <= MaxV(s)
    ensures MaxH(s) == 1 || exists c :: c in s && c.h == MaxH(s)
    ensures MaxV(s) == 1 || exists c :: c in s && c.v == MaxV(s)
  {
    if s != [] {
      MaxIsPositive(s[1..]);
      assert s[0] in s && forall c :: c in s[1..] ==> c in s;
    }
  }

  predicate IsProgressive(marker: Byte) {
    marker == 0xC2 || marker == 0xC6 || marker == 0xCA || marker == 0xCE
  }

  /** A start-of-frame body: precision, height, width, the component count and
      three bytes for each component; None when it is too short or has none. */
  function FrameFromSof(marker: Byte, segment: seq<Byte>): Option<Frame> {
    if |segment| < 6 then None else
      var count: nat := segment[5];
      if count == 0 || |segment| < 6 + 3 * count then None else
        var width, height := BigEndian(segment[3], segment[4]), BigEndian(segment[1], segment[2]);
        var sampling := SamplingOf(segment[6..6 + 3 * count]);
        MaxIsPositive(sampling);
        Some(Frame(width, height, IsProgressive(marker), SampleCount(sampling, width, height, MaxH(sampling), MaxV(sampling))))
  }

  predicate IsBare(marker: Byte) {
    marker == 0x01 || 0xD0 <= marker <= 0xD7
  }

  predicate IsSof(marker: Byte) {
    0xC0 <= marker <= 0xCF && marker != 0xC4 && marker != 0xC8 && marker != 0xCC
  }

  /** The walk from `at`, which is where a marker has to start. */
  function Walk(raw: seq<Byte>, at: nat): Option<Frame>
    decreases |raw| - at
  {
    if |raw| < at + 2 || raw[at] != 0xFF then None
    else if raw[at + 1] == 0xFF then Walk(raw, at + 1)
    else if IsBare(raw[at + 1]) then Walk(raw, at + 2)
    else if |raw| < at + 4 then None
    else
      var len := BigEndian(raw[at + 2], raw[at + 3]);
      if len < 2 || |raw| < at + 2 + len then None
      else if IsSof(raw[at + 1]) then FrameFromSof(raw[at + 1], raw[at + 4..at + 2 + len])
      else Walk(raw, at + 2 + len)
  }

  function Header(raw: seq<Byte>): Option<Frame> {
    if [0xFF, 0xD8] <= raw then Walk(raw, 2) else None
  }

  /** Computes `Header` in one loop over the bytes. */
  method JpegFrame(raw: seq<Byte>) returns (frame: Option<Frame>)
    ensures frame == Header(raw)
  {
    hide FrameFromSof;
    if !([0xFF, 0xD8] <= raw) {
      return None;
    }
    var at := 2;
    while true
      invariant 2 <= at && Walk(raw, at) == Header(raw)
      decreases |raw| - at
    {
      if |raw| <= at || raw[at] != 0xFF || |raw| <= at + 1 {
        return None;
      }
      var marker := raw[at + 1];
      at := at + 2;
      if marker == 0xFF {
        at := at - 1;
      } else if !IsBare(marker) {
        if |raw| < at + 2 {
          return None;
        }
        var len := BigEndian(raw[at], raw[at + 1]);
        if len < 2 || |raw| < at + len {
          return None;
        }
        if IsSof(marker) {
          return FrameFromSof(marker, raw[at + 2..at + len]);
        }
        at := at + len;
      }
    }
  }

  // ------------------------------------------------------------- the grammar

  /** A marker behind any number of fill bytes, with its segment if it has one. */
  datatype Item = Item(fills: nat, marker: Byte, body: Option<seq<Byte>>)

  /** An item as the walk takes it: no fill byte for a marker, no segment for TEM
      and the restart markers, and for every other marker, SOI and EOI included,
      a segment whose length counts itself. The standard gives those two none. */
  predicate Proper(i: Item) {
    && i.marker != 0xFF
    && (i.body.None? <==> IsBare(i.marker))
    && (i.body.Some? ==> |i.body.value| + 2 < 65536)
  }

  function Fills(n: nat): seq<Byte> {
    seq(n, i => 0xFF)
  }

  function Segment(body: seq<Byte>): seq<Byte>
    requires |body| + 2 < 65536
  {
    [(|body| + 2) / 256, (|body| + 2) % 256] + body
  }

  function Bytes(i: Item): seq<Byte>
    requires Proper(i)
  {
    Fills(i.fills + 1) + [i.marker] + if i.body.None? then [] else Segment(i.body.value)
  }

  predicate Misc(items: seq<Item>) {
    forall k :: 0 <= k < |items| ==> Proper(items[k]) && !IsSof(items[k].marker)
  }

  function Rendered(items: seq<Item>): seq<Byte>
    requires Misc(items)
  {
    if items == [] then [] else Bytes(items[0]) + Rendered(items[1..])
  }

  /** `raw` is a JPEG whose first frame header is `sof`, whatever follows it. */
  ghost predicate Declares(raw: seq<Byte>, items: seq<Item>, sof: Item, rest: seq<Byte>) {
    && Misc(items) && Proper(sof) && IsSof(sof.marker)
    && raw == [0xFF, 0xD8] + Rendered(items) + Bytes(sof) + rest
  }

  /** What the walk does with the item at `at`. */
  function After(raw: seq<Byte>, i: Item, end: nat): Option<Frame>
    requires Proper(i)
  {
    if IsSof(i.marker) && i.body.Some? then FrameFromSof(i.marker, i.body.value) else Walk(raw, end)
  }

  /** The walk passes one item, fill bytes and all. */
  lemma {:induction false} WalkPasses(raw: seq<Byte>, at: nat, i: Item, tail: seq<Byte>)
    requires Proper(i) && at <= |raw| && raw[at..] == Bytes(i) + tail
    ensures Walk(raw, at) == After(raw, i, at + |Bytes(i)|)
    decreases i.fills
  {
    hide FrameFromSof, BigEndian;
    var bytes := Bytes(i);
    assert raw[at] == raw[at..][0] == bytes[0] == 0xFF;
    assert raw[at + 1] == raw[at..][1] == bytes[1];
    if i.fills > 0 {
      var less := i.(fills := i.fills - 1);
      assert bytes == [0xFF] + Bytes(less);
      assert raw[at + 1..] == raw[at..][1..] == Bytes(less) + tail;
      assert bytes[1] == 0xFF;
      WalkPasses(raw, at + 1, less, tail);
    } else {
      assert bytes[1] == i.marker;
      if i.body.Some? {
        var body := i.body.value;
        assert bytes == [0xFF, i.marker] + Segment(body);
        assert raw[at + 2] == raw[at..][2] == bytes[2] == (|body| + 2) / 256;
        assert raw[at + 3] == raw[at..][3] == bytes[3] == (|body| + 2) % 256;
        LengthReads(|body| + 2);
        assert raw[at + 4..at + 4 + |body|] == raw[at..][4..4 + |body|] == bytes[4..] == body;
      }
    }
  }

  lemma LengthReads(len: nat)
    requires len < 65536
    ensures BigEndian(len / 256, len % 256) == len
  {
  }

  lemma {:induction false} WalkPassesAll(raw: seq<Byte>, at: nat, items: seq<Item>, tail: seq<Byte>)
    requires Misc(items) && at <= |raw| && raw[at..] == Rendered(items) + tail
    ensures Walk(raw, at) == Walk(raw, at + |Rendered(items)|)
    decreases |items|
  {
    hide Walk, Bytes;
    if items != [] {
      var first := Bytes(items[0]);
      assert Rendered(items) == first + Rendered(items[1..]);
      assert raw[at..] == first + (Rendered(items[1..]) + tail);
      WalkPasses(raw, at, items[0], Rendered(items[1..]) + tail);
      assert raw[at + |first|..] == raw[at..][|first|..] == Rendered(items[1..]) + tail;
      WalkPassesAll(raw, at + |first|, items[1..], tail);
    }
  }

  /** A JPEG written to the grammar reads as exactly the frame it declares. */
  lemma DeclaredFrameIsRead(raw: seq<Byte>, items: seq<Item>, sof: Item, rest: seq<Byte>)
    requires Declares(raw, items, sof, rest)
    ensures Header(raw) == FrameFromSof(sof.marker, sof.body.value)
  {
    hide Walk, Bytes, Rendered, FrameFromSof;
    var head := Rendered(items);
    assert raw[2..] == head + (Bytes(sof) + rest);
    WalkPassesAll(raw, 2, items, Bytes(sof) + rest);
    assert raw[2 + |head|..] == raw[2..][|head|..] == Bytes(sof) + rest;
    WalkPasses(raw, 2 + |head|, sof, rest);
  }

  /** What the walk finds from `at`, as the grammar has it. */
  ghost predicate Finds(raw: seq<Byte>, at: nat, frame: Frame) {
    at <= |raw| && exists items, sof, rest ::
      Misc(items) && Proper(sof) && IsSof(sof.marker)
      && raw[at..] == Rendered(items) + Bytes(sof) + rest
      && FrameFromSof(sof.marker, sof.body.value) == Some(frame)
  }

  lemma Prepend(raw: seq<Byte>, at: nat, i: Item, next: nat, frame: Frame)
    requires Proper(i) && !IsSof(i.marker) && at <= next <= |raw| && raw[at..next] == Bytes(i)
    requires Finds(raw, next, frame)
    ensures Finds(raw, at, frame)
  {
    hide FrameFromSof, Bytes;
    var items: seq<Item>, sof: Item, rest: seq<Byte> :|
      Misc(items) && Proper(sof) && IsSof(sof.marker)
      && raw[next..] == Rendered(items) + Bytes(sof) + rest
      && FrameFromSof(sof.marker, sof.body.value) == Some(frame);
    var all := [i] + items;
    assert all[1..] == items;
    assert raw[at..] == raw[at..next] + raw[next..];
    assert raw[at..] == Rendered(all) + Bytes(sof) + rest;
  }

  lemma RefillSof(raw: seq<Byte>, at: nat, frame: Frame, sof: Item, rest: seq<Byte>)
    requires at < |raw| && raw[at] == 0xFF && Proper(sof) && IsSof(sof.marker)
    requires raw[at + 1..] == Rendered([]) + Bytes(sof) + rest && FrameFromSof(sof.marker, sof.body.value) == Some(frame)
    ensures Finds(raw, at, frame)
  {
    hide FrameFromSof, Bytes;
    var more := sof.(fills := sof.fills + 1);
    OneMoreFill(sof);
    assert raw[at..] == [0xFF] + raw[at + 1..];
    assert raw[at..] == Rendered([]) + Bytes(more) + rest;
  }

  lemma RefillItem(raw: seq<Byte>, at: nat, frame: Frame, items: seq<Item>, sof: Item, rest: seq<Byte>)
    requires at < |raw| && raw[at] == 0xFF && Misc(items) && items != [] && Proper(sof) && IsSof(sof.marker)
    requires raw[at + 1..] == Rendered(items) + Bytes(sof) + rest && FrameFromSof(sof.marker, sof.body.value) == Some(frame)
    ensures Finds(raw, at, frame)
  {
    hide FrameFromSof, Bytes;
    var more := items[0].(fills := items[0].fills + 1);
    OneMoreFill(items[0]);
    var all := [more] + items[1..];
    assert all[1..] == items[1..];
    assert Rendered(all) == [0xFF] + Rendered(items) by {
      assert Rendered(all) == Bytes(more) + Rendered(items[1..]);
      assert Rendered(items) == Bytes(items[0]) + Rendered(items[1..]);
    }
    hide Rendered;
    assert raw[at..] == [0xFF] + raw[at + 1..];
    assert raw[at..] == Rendered(all) + Bytes(sof) + rest;
  }

  /** One more fill byte in front. */
  lemma Refill(raw: seq<Byte>, at: nat, frame: Frame)
    requires at < |raw| && raw[at] == 0xFF && Finds(raw, at + 1, frame)
    ensures Finds(raw, at, frame)
  {
    hide FrameFromSof, Bytes, Rendered;
    var items: seq<Item>, sof: Item, rest: seq<Byte> :|
      Misc(items) && Proper(sof) && IsSof(sof.marker)
      && raw[at + 1..] == Rendered(items) + Bytes(sof) + rest
      && FrameFromSof(sof.marker, sof.body.value) == Some(frame);
    if items == [] {
      RefillSof(raw, at, frame, sof, rest);
    } else {
      RefillItem(raw, at, frame, items, sof, rest);
    }
  }

  lemma OneMoreFill(i: Item)
    requires Proper(i)
    ensures Proper(i.(fills := i.fills + 1)) && Bytes(i.(fills := i.fills + 1)) == [0xFF] + Bytes(i)
  {
  }

  lemma SegmentAt(raw: seq<Byte>, at: nat)
    requires at + 4 <= |raw| && raw[at] == 0xFF && raw[at + 1] != 0xFF && !IsBare(raw[at + 1])
    requires 2 <= BigEndian(raw[at + 2], raw[at + 3]) && at + 2 + BigEndian(raw[at + 2], raw[at + 3]) <= |raw|
    ensures var end := at + 2 + BigEndian(raw[at + 2], raw[at + 3]);
      var i := Item(0, raw[at + 1], Some(raw[at + 4..end]));
      Proper(i) && raw[at..end] == Bytes(i)
  {
    var len := BigEndian(raw[at + 2], raw[at + 3]);
    LengthIsBytes(raw[at + 2], raw[at + 3]);
    hide BigEndian;
    var end := at + 2 + len;
    var body := raw[at + 4..end];
    assert |body| + 2 == len;
    assert Segment(body) == [raw[at + 2], raw[at + 3]] + body;
    assert Fills(1) == [0xFF];
    assert raw[at..end] == [0xFF] + [raw[at + 1]] + ([raw[at + 2], raw[at + 3]] + body);
  }

  lemma LengthIsBytes(a: Byte, b: Byte)
    ensures BigEndian(a, b) / 256 == a && BigEndian(a, b) % 256 == b && BigEndian(a, b) < 65536
  {
  }

  lemma {:induction false} WalkFinds(raw: seq<Byte>, at: nat, frame: Frame)
    requires Walk(raw, at) == Some(frame)
    ensures Finds(raw, at, frame)
    decreases |raw| - at
  {
    hide FrameFromSof, BigEndian, Bytes, Finds;
    var marker := raw[at + 1];
    if marker == 0xFF {
      WalkFinds(raw, at + 1, frame);
      Refill(raw, at, frame);
    } else if IsBare(marker) {
      WalkFinds(raw, at + 2, frame);
      BareAt(raw, at);
      Prepend(raw, at, Item(0, marker, None), at + 2, frame);
    } else {
      var end := at + 2 + BigEndian(raw[at + 2], raw[at + 3]);
      SegmentAt(raw, at);
      var i := Item(0, marker, Some(raw[at + 4..end]));
      if IsSof(marker) {
        SofAt(raw, at, i, end, frame);
      } else {
        WalkFinds(raw, end, frame);
        Prepend(raw, at, i, end, frame);
      }
    }
  }

  lemma BareAt(raw: seq<Byte>, at: nat)
    requires at + 2 <= |raw| && raw[at] == 0xFF && IsBare(raw[at + 1])
    ensures raw[at..at + 2] == Bytes(Item(0, raw[at + 1], None))
  {
  }

  lemma SofAt(raw: seq<Byte>, at: nat, sof: Item, end: nat, frame: Frame)
    requires Proper(sof) && IsSof(sof.marker) && at <= end <= |raw| && raw[at..end] == Bytes(sof)
    requires FrameFromSof(sof.marker, sof.body.value) == Some(frame)
    ensures Finds(raw, at, frame)
  {
    hide FrameFromSof, Bytes;
    assert raw[at..] == raw[at..end] + raw[end..];
    assert raw[at..] == Rendered([]) + Bytes(sof) + raw[end..];
  }

  /** A frame is read exactly from the JPEGs that declare it. */
  lemma ReadIffDeclared(raw: seq<Byte>, frame: Frame)
    ensures Header(raw) == Some(frame) <==>
      exists items, sof, rest :: Declares(raw, items, sof, rest) && FrameFromSof(sof.marker, sof.body.value) == Some(frame)
  {
    hide FrameFromSof, Bytes, Rendered, Walk;
    if Header(raw) == Some(frame) {
      WalkFinds(raw, 2, frame);
      var items: seq<Item>, sof: Item, rest: seq<Byte> :|
        Misc(items) && Proper(sof) && IsSof(sof.marker)
        && raw[2..] == Rendered(items) + Bytes(sof) + rest
        && FrameFromSof(sof.marker, sof.body.value) == Some(frame);
      assert raw == [0xFF, 0xD8] + raw[2..];
      assert Declares(raw, items, sof, rest);
    }
    forall items, sof, rest | Declares(raw, items, sof, rest) && FrameFromSof(sof.marker, sof.body.value) == Some(frame)
      ensures Header(raw) == Some(frame)
    {
      DeclaredFrameIsRead(raw, items, sof, rest);
    }
  }

  // --------------------------------------------------------- the frame header

  /** One component as the frame header declares it. */
  datatype Component = Component(id: Byte, sampling: Sampling, table: Byte)

  ghost predicate ProperComponents(components: seq<Component>) {
    forall c :: c in components ==> c.sampling.h < 16 && c.sampling.v < 16
  }

  function ComponentBytes(components: seq<Component>): seq<Byte>
    requires ProperComponents(components)
  {
    if components == [] then []
    else
      var c := components[0];
      assert c in components;
      [c.id, 16 * c.sampling.h + c.sampling.v, c.table] + ComponentBytes(components[1..])
  }

  function Samplings(components: seq<Component>): (r: seq<Sampling>)
    ensures |r| == |components|
  {
    seq(|components|, i requires 0 <= i < |components| => components[i].sampling)
  }

  lemma {:induction false} ComponentsRead(components: seq<Component>)
    requires ProperComponents(components)
    ensures |ComponentBytes(components)| == 3 * |components|
    ensures SamplingOf(ComponentBytes(components)) == Samplings(components)
  {
    if components != [] {
      var c, rest := components[0], components[1..];
      assert c in components;
      ComponentsRead(rest);
      var bytes := ComponentBytes(components);
      assert bytes[1] == 16 * c.sampling.h + c.sampling.v;
      assert bytes[3..] == ComponentBytes(rest);
      assert Samplings(components) == [c.sampling] + Samplings(rest);
    }
  }

  /** A frame header body as section B.2.2 lays it out. */
  function SofBody(precision: Byte, height: nat, width: nat, components: seq<Component>): seq<Byte>
    requires height < 65536 && width < 65536 && |components| < 256 && ProperComponents(components)
  {
    [precision, height / 256, height % 256, width / 256, width % 256, |components|] + ComponentBytes(components)
  }

  /** The frame such a body declares; bytes after the components do not matter. */
  lemma SofBodyReads(marker: Byte, precision: Byte, height: nat, width: nat, components: seq<Component>, extra: seq<Byte>)
    requires height < 65536 && width < 65536 && 0 < |components| < 256 && ProperComponents(components)
    ensures MaxH(Samplings(components)) > 0 && MaxV(Samplings(components)) > 0
    ensures var s := Samplings(components);
      FrameFromSof(marker, SofBody(precision, height, width, components) + extra) ==
      Some(Frame(width, height, IsProgressive(marker), SampleCount(s, width, height, MaxH(s), MaxV(s))))
  {
    hide MaxH, MaxV, SampleCount, ComponentBytes, SamplingOf, BigEndian;
    MaxIsPositive(Samplings(components));
    ComponentsRead(components);
    LengthReads(height);
    LengthReads(width);
    var body := SofBody(precision, height, width, components) + extra;
    assert body[5] == |components|;
    assert body[6..6 + 3 * |components|] == ComponentBytes(components);
  }

  lemma {:induction false} MaxOfEqual(s: seq<Sampling>, c: Sampling)
    requires c.h > 0 && c.v > 0 && forall i :: 0 <= i < |s| ==> s[i] == c
    ensures s != [] ==> MaxH(s) == c.h && MaxV(s) == c.v
  {
    if s != [] {
      MaxOfEqual(s[1..], c);
    }
  }

  lemma FullComponent(c: Sampling, width: nat, height: nat)
    requires c.h > 0 && c.v > 0
    ensures ComponentSamples(c, width, height, c.h, c.v) == width * height
  {
    DivisionExact(width, c.h);
    DivisionExact(height, c.v);
  }

  lemma DivisionExact(a: nat, d: nat)
    requires d > 0
    ensures a * d / d == a
  {
    var q := a * d / d;
    ScaledDown(a, d, d);
    assert q * d + a * d % d == a * d;
    OneMore(q, d);
    CancelsStrictly(a, q + 1, d);
  }

  lemma CancelsStrictly(x: nat, b: nat, d: nat)
    requires d > 0 && x * d < b * d
    ensures x < b
  {
  }

  /** Where no component is subsampled, the samples are one full plane each. */
  lemma {:induction false} FullSampling(s: seq<Sampling>, c: Sampling, width: nat, height: nat, plane: nat)
    requires c.h > 0 && c.v > 0 && (forall i :: 0 <= i < |s| ==> s[i] == c) && plane == width * height
    ensures SampleCount(s, width, height, c.h, c.v) == |s| * plane
  {
    hide ComponentSamples;
    if s != [] {
      FullSampling(s[1..], c, width, height, plane);
      FullComponent(c, width, height);
      OneMore(|s[1..]|, plane);
    }
  }

  // -------------------------------------------------------------- the samples

  lemma ScaledDown(size: nat, factor: nat, most: nat)
    requires most > 0 && factor <= most
    ensures size * factor / most <= size
  {
    assert size * factor <= size * most;
    DivisionBound(size * factor, size, most);
  }

  lemma Cancels(x: nat, b: nat, d: nat)
    requires d > 0 && x * d <= b * d
    ensures x <= b
  {
  }

  lemma DivisionBound(a: nat, b: nat, d: nat)
    requires d > 0 && a <= b * d
    ensures a / d <= b
  {
    assert a / d * d <= a;
    Cancels(a / d, b, d);
  }

  lemma ProductBound(a: nat, b: nat, c: nat, d: nat)
    requires a <= c && b <= d
    ensures a * b <= c * d
  {
    assert a * b <= c * b <= c * d;
  }

  lemma OneMore(n: nat, plane: nat)
    ensures (n + 1) * plane == plane + n * plane
  {
  }

  lemma ComponentIsBounded(c: Sampling, width: nat, height: nat, hMax: nat, vMax: nat)
    requires hMax > 0 && vMax > 0 && c.h <= hMax && c.v <= vMax
    ensures ComponentSamples(c, width, height, hMax, vMax) <= width * height
  {
    ScaledDown(width, c.h, hMax);
    ScaledDown(height, c.v, vMax);
    ProductBound(width * c.h / hMax, height * c.v / vMax, width, height);
  }

  lemma {:induction false} SumIsBounded(s: seq<Sampling>, width: nat, height: nat, hMax: nat, vMax: nat, plane: nat)
    requires hMax > 0 && vMax > 0
    requires forall c :: c in s ==> ComponentSamples(c, width, height, hMax, vMax) <= plane
    ensures SampleCount(s, width, height, hMax, vMax) <= |s| * plane
  {
    hide ComponentSamples;
    if s != [] {
      SumIsBounded(s[1..], width, height, hMax, vMax, plane);
      OneMore(|s[1..]|, plane);
    }
  }

  lemma SamplesAreBounded(s: seq<Sampling>, width: nat, height: nat, hMax: nat, vMax: nat)
    requires hMax > 0 && vMax > 0 && forall c :: c in s ==> c.h <= hMax && c.v <= vMax
    ensures SampleCount(s, width, height, hMax, vMax) <= |s| * (width * height)
  {
    hide ComponentSamples, SampleCount;
    forall c | c in s ensures ComponentSamples(c, width, height, hMax, vMax) <= width * height {
      ComponentIsBounded(c, width, height, hMax, vMax);
    }
    SumIsBounded(s, width, height, hMax, vMax, width * height);
  }

  lemma {:induction false} SamplingCount(components: seq<Byte>)
    requires |components| % 3 == 0
    ensures |SamplingOf(components)| == |components| / 3
  {
    if components != [] {
      SamplingCount(components[3..]);
    }
  }

  /** The sample count never exceeds one full plane per declared component, so it
      fits a 64-bit word with room to double. */
  lemma SamplesFit(marker: Byte, segment: seq<Byte>)
    ensures var frame := FrameFromSof(marker, segment);
      frame.Some? ==>
        |segment| >= 6 && frame.value.samples <= segment[5] * (frame.value.width * frame.value.height)
        && frame.value.samples * 2 < 0x1_0000_0000_0000_0000
  {
    var frame := FrameFromSof(marker, segment);
    if frame.Some? {
      var count: nat, w, h := segment[5], frame.value.width, frame.value.height;
      var sampling := SamplingOf(segment[6..6 + 3 * count]);
      MaxIsPositive(sampling);
      SamplingCount(segment[6..6 + 3 * count]);
      SamplesAreBounded(sampling, w, h, MaxH(sampling), MaxV(sampling));
      ProductBound(w, h, 65535, 65535);
      ProductBound(count, w * h, 255, 65535 * 65535);
    }
  }

  // ------------------------------------------------------------- subsampling

  /** A component sampled at one in `across` columns and one in `down` rows has
      that share of the plane. */
  lemma SubsampledComponent(c: Sampling, width: nat, height: nat, across: nat, down: nat)
    requires c.h > 0 && c.v > 0 && across > 0 && down > 0
    requires c.h * across > 0 && c.v * down > 0
    ensures ComponentSamples(c, width, height, c.h * across, c.v * down) == (width / across) * (height / down)
  {
    ScaledDivision(width, across, c.h);
    ScaledDivision(height, down, c.v);
  }

  lemma ScaledDivision(a: nat, b: nat, d: nat)
    requires b > 0 && d > 0 && d * b > 0
    ensures a * d / (d * b) == a / b
  {
    var q, r := a / b, a % b;
    assert a == q * b + r;
    assert a * d == q * (d * b) + r * d by {
      assert (q * b + r) * d == q * b * d + r * d;
    }
    assert r * d < d * b by {
      Strictly(r, b, d);
    }
    QuotientIs(a * d, d * b, q, r * d);
  }

  lemma Strictly(r: nat, b: nat, d: nat)
    requires r < b && d > 0
    ensures r * d < d * b
  {
  }

  lemma QuotientIs(n: nat, d: nat, q: nat, r: nat)
    requires d > 0 && n == q * d + r && r < d
    ensures n / d == q
  {
    assert n / d * d + n % d == n;
    Between(n / d, q, d, n % d, r);
  }

  lemma Between(p: nat, q: nat, d: nat, s: nat, r: nat)
    requires d > 0 && p * d + s == q * d + r && s < d && r < d
    ensures p == q
  {
    CancelsStrictly(p, q + 1, d);
    CancelsStrictly(q, p + 1, d);
  }

  /** A luminance plane of twice the sampling in both directions and two chroma
      planes: the whole plane and two quarters of it. */
  lemma QuarterChroma(width: nat, height: nat)
    ensures var s := [Sampling(2, 2), Sampling(1, 1), Sampling(1, 1)];
      MaxH(s) == 2 && MaxV(s) == 2
      && SampleCount(s, width, height, 2, 2) == width * height + 2 * ((width / 2) * (height / 2))
  {
    var s := [Sampling(2, 2), Sampling(1, 1), Sampling(1, 1)];
    assert s[1..] == [Sampling(1, 1), Sampling(1, 1)] && s[1..][1..] == [Sampling(1, 1)] && s[1..][1..][1..] == [];
    FullComponent(Sampling(2, 2), width, height);
    SubsampledComponent(Sampling(1, 1), width, height, 2, 2);
    hide ComponentSamples;
    assert SampleCount(s[1..][1..], width, height, 2, 2) == (width / 2) * (height / 2);
    assert SampleCount(s[1..], width, height, 2, 2) == (width / 2) * (height / 2) + (width / 2) * (height / 2);
  }

  /** Which markers head a frame, a progressive one, or no segment, as table B.1 lists them. */
  lemma MarkersAreListed(marker: Byte)
    ensures IsSof(marker) <==>
      marker in {0xC0, 0xC1, 0xC2, 0xC3, 0xC5, 0xC6, 0xC7, 0xC9, 0xCA, 0xCB, 0xCD, 0xCE, 0xCF}
    ensures IsProgressive(marker) <==> marker in {0xC2, 0xC6, 0xCA, 0xCE}
    ensures IsBare(marker) <==> marker in {0x01, 0xD0, 0xD1, 0xD2, 0xD3, 0xD4, 0xD5, 0xD6, 0xD7}
  {
  }

  // ---------------------------------------------------------------- the scale

  function DivCeil(a: nat, k: nat): nat
    requires k > 0
  {
    (a + k - 1) / k
  }

  predicate Covers(width: nat, height: nat, tw: nat, th: nat, k: nat)
    requires k > 0
  {
    DivCeil(width, k) >= tw && DivCeil(height, k) >= th
  }

  /** The reduction a baseline JPEG is decoded at. */
  function Scale(width: nat, height: nat, tw: nat, th: nat): nat {
    if Covers(width, height, tw, th, 8) then 8
    else if Covers(width, height, tw, th, 4) then 4
    else if Covers(width, height, tw, th, 2) then 2
    else 1
  }

  /** A side reduced by `k` is the least number of pixels of that size that reach over it. */
  lemma ReducedSideReachesOver(a: nat, k: nat)
    requires k in {1, 2, 4, 8}
    ensures k * DivCeil(a, k) >= a && k * (DivCeil(a, k) - 1) < a
  {
  }

  /** A reduction covers the target exactly when it is no coarser than the chosen
      one, which itself covers exactly the targets no larger than the image. */
  lemma ScaleIsTheCoarsestThatCovers(width: nat, height: nat, tw: nat, th: nat, k: nat)
    requires k == 2 || k == 4 || k == 8
    ensures Scale(width, height, tw, th) in {1, 2, 4, 8}
    ensures Covers(width, height, tw, th, k) <==> k <= Scale(width, height, tw, th)
    ensures Covers(width, height, tw, th, Scale(width, height, tw, th)) <==> tw <= width && th <= height
  {
  }
}
