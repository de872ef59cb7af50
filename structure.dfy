/**
 * `Layout.struct` and `Layout.seq` of `@solana/buffer-layout` as the schemas
 * in tests/squads_sdk/instruction.ts use them: a struct encodes its fields in
 * order, skipping a field whose value is undefined but still advancing by its
 * span; a sequence encodes its elements one after the other, each at the
 * offset where the previous one's returned byte count ended, and a
 * count-prefixed sequence writes its count afterwards, `countBack` bytes
 * before its first element.
 */
module Structure {
  import opened Wrappers
  import opened Bytes
  import opened Errors
  import Utf8
  import Layout

  /** A field layout. */
  datatype Field =
    | U8
    | U64
    | I64
    | FixedUtf8(width: nat)
      /** `Layout.seq(Layout.fixedUtf8(width), count)` */
    | Utf8Array(width: nat, count: nat)
      /** `Layout.seq(Layout.u64(), new OffsetLayout(Layout.u8(), -countBack))` */
    | U64Table(countBack: nat)

  /** A property value of an args object. */
  datatype Value = Int(n: int) | Text(s: JsString) | Texts(ts: seq<JsString>) | Ints(ns: seq<int>)

  /** The buffer an encode leaves behind and the error it threw, if any. */
  datatype Outcome = Outcome(buf: seq<byte>, failure: Option<Error>)

  /** A struct member: a field layout and the args property it encodes (`None` when that property is undefined). */
  datatype Member = Member(layout: Field, value: Option<Value>)

  /** A schema's fields, each with the args property of its name, in order. */
  function Members(fields: seq<Field>, values: seq<Option<Value>>): (ms: seq<Member>)
    requires |fields| == |values|
    ensures |ms| == |fields| && forall i :: 0 <= i < |ms| ==> ms[i].layout == fields[i] && ms[i].value == values[i]
  {
    seq(|fields|, i requires 0 <= i < |fields| => Member(fields[i], values[i]))
  }

  /** The value (or its absence) has the type the field layout expects; a table is always given. */
  predicate Conforms(f: Field, v: Option<Value>) {
    match f
    case U8 => v.None? || v.value.Int?
    case U64 => v.None? || v.value.Int?
    case I64 => v.None? || v.value.Int?
    case FixedUtf8(_) => v.None? || v.value.Text?
    case Utf8Array(_, _) => v.None? || v.value.Texts?
    case U64Table(_) => v.Some? && v.value.Ints?
  }

  /**
   * `fd.span`: the span a field declares; a count-prefixed table's is not
   * fixed and is read back instead. The library declares -1 for it, so an
   * undefined table would move the offset back one byte; that cannot happen
   * here, as `AddMembersToSquadArgs` always sets `allocationTable`, so 0 is
   * used.
   */
  function DeclaredSpan(f: Field): nat {
    match f
    case U8 => 1
    case U64 => 8
    case I64 => 8
    case FixedUtf8(w) => w
    case Utf8Array(w, c) => w * c
    case U64Table(_) => 0
  }

  /**
   * `fd.getSpan(b, offset)`: a fixed-span field (such as `FixedLengthUTF8`)
   * answers its declared width whatever the buffer and offset; a table reads
   * its count back from `countBack` bytes before its start.
   */
  function GetSpan(f: Field, buf: seq<byte>, offset: nat): (n: nat)
    ensures !f.U64Table? ==> n == DeclaredSpan(f)
    ensures f.U64Table? && f.countBack <= offset < |buf| + f.countBack ==> n == 8 * (buf[offset - f.countBack] as int)
  {
    match f
    case U64Table(back) => if back <= offset < |buf| + back then 8 * (buf[offset - back] as int) else 0
    case _ => DeclaredSpan(f)
  }

  function Lift(r: Result<(seq<byte>, nat), Error>, buf: seq<byte>): Outcome {
    match r
    case Ok((after, _)) => Outcome(after, None)
    case Err(e) => Outcome(buf, Some(e))
  }

  /** `Layout.seq(Layout.fixedUtf8(width), count).encode(ts, buf, pos)`: each text where the previous one's bytes ended. */
  function WriteTexts(width: nat, ts: seq<JsString>, buf: seq<byte>, pos: nat): (o: Outcome)
    ensures |o.buf| == |buf|
    decreases |ts|
  {
    if |ts| == 0 then Outcome(buf, None)
    else
      match Layout.WriteFixedUtf8(width, ts[0], buf, pos)
      case Err(e) => Outcome(buf, Some(e))
      case Ok((after, n)) => WriteTexts(width, ts[1..], after, pos + n)
  }

  /** The elements of a `Layout.seq(Layout.u64(), …)`, 8 bytes apart. */
  function WriteU64s(ns: seq<int>, buf: seq<byte>, pos: nat): (o: Outcome)
    ensures |o.buf| == |buf|
    decreases |ns|
  {
    if |ns| == 0 then Outcome(buf, None)
    else
      match Layout.WriteU64(ns[0], buf, pos)
      case Err(e) => Outcome(buf, Some(e))
      case Ok((after, n)) => WriteU64s(ns[1..], after, pos + n)
  }

  /** One field's `encode`; a value of the wrong kind is refused and nothing is written. */
  function WriteField(f: Field, v: Value, buf: seq<byte>, offset: nat): (o: Outcome)
    ensures |o.buf| == |buf|
  {
    if !Conforms(f, Some(v)) then Outcome(buf, Some(WrongType))
    else match f
    case U8 => Lift(Layout.WriteU8(v.n, buf, offset), buf)
    case U64 => Lift(Layout.WriteU64(v.n, buf, offset), buf)
    case I64 => Lift(Layout.WriteI64(v.n, buf, offset), buf)
    case FixedUtf8(w) => Lift(Layout.WriteFixedUtf8(w, v.s, buf, offset), buf)
    case Utf8Array(w, _) => WriteTexts(w, v.ts, buf, offset)
    case U64Table(back) =>
      var o := WriteU64s(v.ns, buf, offset);
      if o.failure.Some? then o
      else Lift(Layout.WriteU8(|v.ns|, o.buf, offset - back), o.buf)
  }

  /** `Structure.encode`: the members in order from `offset`; an absent value writes nothing but its span is skipped. */
  function WriteFields(ms: seq<Member>, buf: seq<byte>, offset: nat): (o: Outcome)
    ensures |o.buf| == |buf|
    decreases |ms|, 1
  {
    if |ms| == 0 then Outcome(buf, None) else WriteFirst(ms, buf, offset)
  }

  /** The first member, then the rest from where its span ends. */
  function WriteFirst(ms: seq<Member>, buf: seq<byte>, offset: nat): (o: Outcome)
    requires |ms| > 0
    ensures |o.buf| == |buf|
    decreases |ms|, 0
  {
    if ms[0].value.None? then WriteFields(ms[1..], buf, offset + DeclaredSpan(ms[0].layout))
    else
      var o := WriteField(ms[0].layout, ms[0].value.value, buf, offset);
      if o.failure.Some? then o
      else WriteFields(ms[1..], o.buf, offset + GetSpan(ms[0].layout, o.buf, offset))
  }

  /** Every text fits the width. */
  predicate TextsFit(width: nat, ts: seq<JsString>)
    decreases |ts|
  {
    |ts| > 0 ==> |Utf8.Encode(ts[0])| <= width && TextsFit(width, ts[1..])
  }

  /** Every value is an unsigned 64-bit integer. */
  predicate AllU64(ns: seq<int>)
    decreases |ns|
  {
    |ns| > 0 ==> 0 <= ns[0] < TWO_64 && AllU64(ns[1..])
  }

  /** The value passes every check its field's `encode` makes on the value itself. */
  predicate Valid(f: Field, v: Value)
    requires Conforms(f, Some(v))
  {
    match f
    case U8 => 0 <= v.n < 256
    case U64 => 0 <= v.n < TWO_64
    case I64 => Layout.I64Encodable(v.n)
    case FixedUtf8(w) => |Utf8.Encode(v.s)| <= w
    case Utf8Array(w, _) => TextsFit(w, v.ts)
    case U64Table(_) => |v.ns| < 256 && AllU64(v.ns)
  }

  /** Every present value has its field's kind and passes its field's checks. */
  predicate AllValid(ms: seq<Member>)
    decreases |ms|
  {
    |ms| > 0 ==>
      && (ms[0].value.Some? ==> Conforms(ms[0].layout, ms[0].value) && Valid(ms[0].layout, ms[0].value.value))
      && AllValid(ms[1..])
  }

  /** Valid, and a text array holds no more texts than its declared count. */
  predicate Encodable(f: Field, v: Option<Value>) {
    && Conforms(f, v)
    && (v.Some? ==> Valid(f, v.value))
    && (v.Some? && f.Utf8Array? ==> |v.value.ts| <= f.count)
  }

  predicate AllEncodable(ms: seq<Member>)
    decreases |ms|
  {
    |ms| > 0 ==> Encodable(ms[0].layout, ms[0].value) && AllEncodable(ms[1..])
  }

  /** The UTF-8 bytes of the texts, back to back. */
  function EncodeAll(ts: seq<JsString>): seq<byte>
    decreases |ts|
  {
    if |ts| == 0 then [] else Utf8.Encode(ts[0]) + EncodeAll(ts[1..])
  }

  lemma {:induction false} EncodeAllBound(width: nat, ts: seq<JsString>)
    requires TextsFit(width, ts)
    ensures |EncodeAll(ts)| <= |ts| * width
    decreases |ts|
  {
    if |ts| > 0 {
      EncodeAllBound(width, ts[1..]);
      assert |ts| * width == (|ts| - 1) * width + width;
    }
  }

  /** Every text fits exactly when each one does. */
  lemma {:induction false} TextsFitEach(width: nat, ts: seq<JsString>)
    ensures TextsFit(width, ts) <==> forall i :: 0 <= i < |ts| ==> |Utf8.Encode(ts[i])| <= width
    decreases |ts|
  {
    if |ts| > 0 {
      TextsFitEach(width, ts[1..]);
      assert forall i :: 0 <= i < |ts| - 1 ==> ts[1..][i] == ts[i + 1];
    }
  }

  /** Texts of `width` bytes each, back to back: `width` bytes per text. */
  lemma {:induction false} EncodeAllLength(width: nat, ts: seq<JsString>)
    requires forall j :: 0 <= j < |ts| ==> |Utf8.Encode(ts[j])| == width
    ensures |EncodeAll(ts)| == width * |ts|
    decreases |ts|
  {
    if |ts| > 0 {
      assert forall j :: 0 <= j < |ts| - 1 ==> ts[1..][j] == ts[j + 1];
      EncodeAllLength(width, ts[1..]);
      assert width * |ts| == width + width * (|ts| - 1);
    }
  }

  lemma {:induction false} EncodeAllAppend(ts: seq<JsString>, us: seq<JsString>)
    ensures EncodeAll(ts + us) == EncodeAll(ts) + EncodeAll(us)
    decreases |ts|
  {
    if |ts| == 0 {
      assert ts + us == us;
    } else {
      assert (ts + us)[0] == ts[0] && (ts + us)[1..] == ts[1..] + us;
      EncodeAllAppend(ts[1..], us);
      assert EncodeAll(ts) + EncodeAll(us) == Utf8.Encode(ts[0]) + (EncodeAll(ts[1..]) + EncodeAll(us));
    }
  }

  lemma MulPred(w: nat, i: nat)
    requires i > 0
    ensures w <= w * i && w * i - w == w * (i - 1)
  {
    assert w * i == w + w * (i - 1);
  }

  /** Texts of `width` bytes each, back to back: text `i` starts `width * i` bytes in. */
  lemma {:induction false} EncodeAllAt(width: nat, ts: seq<JsString>, i: nat, start: nat)
    requires forall j :: 0 <= j < |ts| ==> |Utf8.Encode(ts[j])| == width
    requires i < |ts| && start == width * i
    ensures start + width <= |EncodeAll(ts)|
    ensures EncodeAll(ts)[start..start + width] == Utf8.Encode(ts[i])
    decreases i
  {
    var head, tail, e := Utf8.Encode(ts[0]), EncodeAll(ts[1..]), Utf8.Encode(ts[i]);
    assert EncodeAll(ts) == head + tail && |head| == width;
    if i == 0 {
      SliceOfCons(head, tail, 0, e);
    } else {
      assert forall j :: 0 <= j < |ts| - 1 ==> ts[1..][j] == ts[j + 1];
      assert ts[1..][i - 1] == ts[i];
      MulPred(width, i);
      EncodeAllAt(width, ts[1..], i - 1, start - width);
      SliceOfCons(head, tail, start, e);
    }
  }

  /** The `|e|` bytes at `start` of `head + tail`, found in `head` when `start` is 0 and in `tail` otherwise. */
  lemma SliceOfCons(head: seq<byte>, tail: seq<byte>, start: nat, e: seq<byte>)
    requires |e| == |head|
    requires start == 0 ==> e == head
    requires start > 0 ==> |head| <= start && start <= |tail| && tail[start - |head|..start] == e
    ensures start + |e| <= |head + tail|
    ensures (head + tail)[start..start + |e|] == e
  {
    if start == 0 {
      PrefixSlice(head, tail, 0, |head|);
    } else {
      AppendSlice(head, tail, start - |head|, start);
    }
  }

  /** The 8-byte little-endian images of the values, back to back. */
  function LEs(ns: seq<int>): (b: seq<byte>)
    ensures |b| == 8 * |ns|
    decreases |ns|
  {
    if |ns| == 0 then [] else LE(ns[0] % TWO_64, 8) + LEs(ns[1..])
  }

  /** Element `i`'s eight bytes sit `8 * i` bytes in. */
  lemma {:induction false} LEsAt(ns: seq<int>, i: nat)
    requires i < |ns|
    ensures LEs(ns)[8 * i..8 * i + 8] == LE(ns[i] % TWO_64, 8)
    decreases i
  {
    var head := LE(ns[0] % TWO_64, 8);
    assert LEs(ns) == head + LEs(ns[1..]);
    if i > 0 {
      LEsAt(ns[1..], i - 1);
      assert ns[1..][i - 1] == ns[i];
      assert (head + LEs(ns[1..]))[8 * i..8 * i + 8] == LEs(ns[1..])[8 * (i - 1)..8 * (i - 1) + 8];
    }
  }

  lemma {:induction false} AllU64At(ns: seq<int>, i: nat)
    requires AllU64(ns) && i < |ns|
    ensures 0 <= ns[i] < TWO_64
    decreases i
  {
    if i > 0 {
      assert ns[1..][i - 1] == ns[i];
      AllU64At(ns[1..], i - 1);
    }
  }

  lemma MulMono(a: nat, b: nat, w: nat)
    requires a <= b
    ensures a * w <= w * b
  {
    assert b * w == w * b;
  }

  /** Bytes zero-padded (or cut) to exactly `n`. */
  function Pad(e: seq<byte>, n: nat): (r: seq<byte>)
    ensures |r| == n
  {
    if |e| <= n then e + Zeros(n - |e|) else e[..n]
  }

  /**
   * What a field occupies in a zero-filled buffer once encoded: a text field
   * keeps its zero padding. (Defined for every value; only encodable values
   * are ever compared with an encoding.)
   */
  function Image(f: Field, v: Option<Value>): (b: seq<byte>)
    ensures !f.U64Table? ==> |b| == DeclaredSpan(f)
    ensures f.U64Table? && v.Some? && v.value.Ints? ==> |b| == 8 * |v.value.ns|
  {
    match v
    case None => Zeros(DeclaredSpan(f))
    case Some(x) =>
      match f
      case U8 => if x.Int? then [x.n % 256] else Zeros(1)
      case U64 => if x.Int? then LE(x.n % TWO_64, 8) else Zeros(8)
      case I64 => if x.Int? then LE(x.n % TWO_64, 8) else Zeros(8)
      case FixedUtf8(w) => if x.Text? then Pad(Utf8.Encode(x.s), w) else Zeros(w)
      case Utf8Array(w, c) => if x.Texts? then Pad(EncodeAll(x.ts), w * c) else Zeros(w * c)
      case U64Table(_) => if x.Ints? then LEs(x.ns) else []
  }

  function Images(ms: seq<Member>): seq<byte>
    decreases |ms|
  {
    if |ms| == 0 then [] else Image(ms[0].layout, ms[0].value) + Images(ms[1..])
  }

  /**
   * Each table's count lands on a byte already written before the table,
   * which holds that same count (the struct's own count field).
   */
  predicate CountsAgree(ms: seq<Member>, written: seq<byte>)
    decreases |ms|
  {
    |ms| > 0 ==>
      && (ms[0].layout.U64Table? ==>
            && ms[0].value.Some? && ms[0].value.value.Ints?
            && 1 <= ms[0].layout.countBack <= |written| && written[|written| - ms[0].layout.countBack] == |ms[0].value.value.ns|)
      && CountsAgree(ms[1..], written + Image(ms[0].layout, ms[0].value))
  }

  lemma AppendAssoc(a: seq<byte>, b: seq<byte>, c: seq<byte>)
    ensures a + b + c == a + (b + c)
  {
  }

  lemma ZerosSplit(a: nat, b: nat)
    ensures Zeros(a + b) == Zeros(a) + Zeros(b)
  {
    assert Zeros(a + b) == Zeros(a) + Zeros(b);
  }

  /** Copying bytes right after `prefix` into a zero-filled remainder. */
  lemma SpliceOntoZeros(prefix: seq<byte>, m: nat, bytes: seq<byte>)
    requires |bytes| <= m
    ensures Splice(prefix + Zeros(m), |prefix|, bytes) == prefix + bytes + Zeros(m - |bytes|)
  {
    var buf := prefix + Zeros(m);
    assert buf[..|prefix|] == prefix;
    assert buf[|prefix| + |bytes|..] == Zeros(m - |bytes|);
  }

  /** Padding a written image with zeros up to its slot, inside a zero-filled remainder. */
  lemma PadOntoZeros(prefix: seq<byte>, e: seq<byte>, slot: nat, m: nat)
    requires |e| <= slot <= m
    ensures prefix + e + Zeros(m - |e|) == prefix + (e + Zeros(slot - |e|)) + Zeros(m - slot)
  {
    ZerosSplit(slot - |e|, m - slot);
    assert Zeros(m - |e|) == Zeros((slot - |e|) + (m - slot));
    AppendAssoc(prefix + e, Zeros(slot - |e|), Zeros(m - slot));
    AppendAssoc(prefix, e, Zeros(slot - |e|));
  }

  /** Writing a byte over an equal byte changes nothing. */
  lemma SpliceSameByte(buf: seq<byte>, i: nat)
    requires i < |buf|
    ensures Splice(buf, i, [buf[i]]) == buf
  {
    assert Splice(buf, i, [buf[i]]) == buf;
  }

  lemma MulStep(k: nat, w: nat, m: nat, e: nat)
    requires 1 <= k && k * w <= m && e <= w
    ensures w <= m && (k - 1) * w <= m - e
  {
    assert k * w == (k - 1) * w + w;
  }

  lemma FixedUtf8OntoZeros(width: nat, s: JsString, prefix: seq<byte>, m: nat)
    requires |Utf8.Encode(s)| <= width <= m
    ensures Layout.WriteFixedUtf8(width, s, prefix + Zeros(m), |prefix|)
         == Ok((prefix + Utf8.Encode(s) + Zeros(m - |Utf8.Encode(s)|), |Utf8.Encode(s)|))
  {
    SpliceOntoZeros(prefix, m, Utf8.Encode(s));
  }

  /** The first text lands right after `prefix` and the rest follow it. */
  lemma WriteTextsHead(width: nat, ts: seq<JsString>, prefix: seq<byte>, m: nat)
    requires |ts| > 0 && |Utf8.Encode(ts[0])| <= width <= m
    ensures WriteTexts(width, ts, prefix + Zeros(m), |prefix|)
         == WriteTexts(width, ts[1..], (prefix + Utf8.Encode(ts[0])) + Zeros(m - |Utf8.Encode(ts[0])|), |prefix + Utf8.Encode(ts[0])|)
  {
    FixedUtf8OntoZeros(width, ts[0], prefix, m);
  }

  lemma {:induction false} WriteTextsOntoZeros(width: nat, ts: seq<JsString>, prefix: seq<byte>, m: nat)
    requires TextsFit(width, ts)
    requires |ts| * width <= m
    ensures |EncodeAll(ts)| <= m
    ensures WriteTexts(width, ts, prefix + Zeros(m), |prefix|) == Outcome(prefix + EncodeAll(ts) + Zeros(m - |EncodeAll(ts)|), None)
    decreases |ts|
  {
    if |ts| > 0 {
      MulStep(|ts|, width, m, |Utf8.Encode(ts[0])|);
      WriteTextsOntoZeros(width, ts[1..], prefix + Utf8.Encode(ts[0]), m - |Utf8.Encode(ts[0])|);
      WriteTextsStep(width, ts, prefix, m);
    }
  }

  /** One step of the texts' tiling: the first text, then what the others leave. */
  lemma WriteTextsStep(width: nat, ts: seq<JsString>, prefix: seq<byte>, m: nat)
    requires |ts| > 0 && |Utf8.Encode(ts[0])| <= width <= m
    requires |EncodeAll(ts[1..])| <= m - |Utf8.Encode(ts[0])|
    requires WriteTexts(width, ts[1..], (prefix + Utf8.Encode(ts[0])) + Zeros(m - |Utf8.Encode(ts[0])|), |prefix + Utf8.Encode(ts[0])|)
          == Outcome((prefix + Utf8.Encode(ts[0])) + EncodeAll(ts[1..]) + Zeros((m - |Utf8.Encode(ts[0])|) - |EncodeAll(ts[1..])|), None)
    ensures |EncodeAll(ts)| <= m
    ensures WriteTexts(width, ts, prefix + Zeros(m), |prefix|) == Outcome(prefix + EncodeAll(ts) + Zeros(m - |EncodeAll(ts)|), None)
  {
    var e := Utf8.Encode(ts[0]);
    var rest := EncodeAll(ts[1..]);
    WriteTextsHead(width, ts, prefix, m);
    assert EncodeAll(ts) == e + rest;
    AppendAssoc(prefix, e, rest);
  }

  /** The first value lands right after `prefix` and the rest follow it. */
  lemma WriteU64sHead(ns: seq<int>, prefix: seq<byte>, m: nat)
    requires |ns| > 0 && 0 <= ns[0] < TWO_64 && 8 <= m
    ensures WriteU64s(ns, prefix + Zeros(m), |prefix|) == WriteU64s(ns[1..], prefix + LE(ns[0], 8) + Zeros(m - 8), |prefix| + 8)
  {
    SpliceOntoZeros(prefix, m, LE(ns[0], 8));
  }

  lemma {:induction false} WriteU64sOntoZeros(ns: seq<int>, prefix: seq<byte>, m: nat)
    requires AllU64(ns)
    requires 8 * |ns| <= m
    ensures WriteU64s(ns, prefix + Zeros(m), |prefix|) == Outcome(prefix + LEs(ns) + Zeros(m - 8 * |ns|), None)
    decreases |ns|
  {
    if |ns| > 0 {
      WriteU64sHead(ns, prefix, m);
      assert ns[0] % TWO_64 == ns[0];
      WriteU64sOntoZeros(ns[1..], prefix + LE(ns[0], 8), m - 8);
      AppendAssoc(prefix, LE(ns[0] % TWO_64, 8), LEs(ns[1..]));
    }
  }

  /** Encoding a present value right after `prefix` into `m` zero bytes leaves exactly the field's image there. */
  ghost predicate LeavesImage(f: Field, v: Value, prefix: seq<byte>, m: nat)
    requires Conforms(f, Some(v))
  {
    && |Image(f, Some(v))| <= m
    && WriteField(f, v, prefix + Zeros(m), |prefix|) == Outcome(prefix + Image(f, Some(v)) + Zeros(m - |Image(f, Some(v))|), None)
  }

  lemma U8OntoZeros(v: Value, prefix: seq<byte>, m: nat)
    requires v.Int? && 0 <= v.n < 256 && 1 <= m
    ensures LeavesImage(U8, v, prefix, m)
  {
    assert Image(U8, Some(v)) == [v.n];
    SpliceOntoZeros(prefix, m, [v.n]);
  }

  lemma U64OntoZeros(v: Value, prefix: seq<byte>, m: nat)
    requires v.Int? && 0 <= v.n < TWO_64 && 8 <= m
    ensures LeavesImage(U64, v, prefix, m)
  {
    assert v.n % TWO_64 == v.n;
    assert Image(U64, Some(v)) == LE(v.n, 8);
    SpliceOntoZeros(prefix, m, LE(v.n, 8));
  }

  lemma I64OntoZeros(v: Value, prefix: seq<byte>, m: nat)
    requires v.Int? && Layout.I64Encodable(v.n) && 8 <= m
    ensures LeavesImage(I64, v, prefix, m)
  {
    assert Image(I64, Some(v)) == LE(v.n % TWO_64, 8);
    SpliceOntoZeros(prefix, m, LE(v.n % TWO_64, 8));
  }

  lemma TextOntoZeros(w: nat, v: Value, prefix: seq<byte>, m: nat)
    requires v.Text? && |Utf8.Encode(v.s)| <= w <= m
    ensures LeavesImage(FixedUtf8(w), v, prefix, m)
  {
    var e := Utf8.Encode(v.s);
    assert Image(FixedUtf8(w), Some(v)) == e + Zeros(w - |e|);
    assert WriteField(FixedUtf8(w), v, prefix + Zeros(m), |prefix|) == Outcome(prefix + e + Zeros(m - |e|), None) by {
      SpliceOntoZeros(prefix, m, e);
    }
    PadOntoZeros(prefix, e, w, m);
  }

  lemma TextsOntoZeros(w: nat, c: nat, v: Value, prefix: seq<byte>, m: nat)
    requires v.Texts? && TextsFit(w, v.ts) && |v.ts| <= c && w * c <= m
    ensures LeavesImage(Utf8Array(w, c), v, prefix, m)
  {
    var f := Utf8Array(w, c);
    var e := EncodeAll(v.ts);
    var image := Image(f, Some(v));
    assert |e| <= w * c by {
      EncodeAllBound(w, v.ts);
      MulMono(|v.ts|, c, w);
    }
    assert image == e + Zeros(w * c - |e|);
    assert WriteField(f, v, prefix + Zeros(m), |prefix|) == WriteTexts(w, v.ts, prefix + Zeros(m), |prefix|);
    assert WriteTexts(w, v.ts, prefix + Zeros(m), |prefix|) == Outcome(prefix + e + Zeros(m - |e|), None) by {
      MulMono(|v.ts|, c, w);
      WriteTextsOntoZeros(w, v.ts, prefix, m);
    }
    assert prefix + e + Zeros(m - |e|) == prefix + image + Zeros(m - |image|) by {
      PadOntoZeros(prefix, e, w * c, m);
    }
  }

  lemma TableOntoZeros(back: nat, v: Value, prefix: seq<byte>, m: nat)
    requires v.Ints? && AllU64(v.ns) && |v.ns| < 256 && 8 * |v.ns| <= m
    requires 1 <= back <= |prefix| && prefix[|prefix| - back] == |v.ns|
    ensures LeavesImage(U64Table(back), v, prefix, m)
  {
    var buf := prefix + LEs(v.ns) + Zeros(m - 8 * |v.ns|);
    assert WriteU64s(v.ns, prefix + Zeros(m), |prefix|) == Outcome(buf, None) by {
      WriteU64sOntoZeros(v.ns, prefix, m);
    }
    assert buf[|prefix| - back] == |v.ns|;
    SpliceSameByte(buf, |prefix| - back);
  }

  /** One present field encoded right after `prefix` into a zero-filled remainder leaves exactly its image. */
  lemma WriteFieldOntoZeros(f: Field, v: Value, prefix: seq<byte>, m: nat)
    requires Encodable(f, Some(v))
    requires |Image(f, Some(v))| <= m
    requires f.U64Table? ==> 1 <= f.countBack <= |prefix| && prefix[|prefix| - f.countBack] == |v.ns|
    ensures LeavesImage(f, v, prefix, m)
  {
    match f
    case U8 => U8OntoZeros(v, prefix, m);
    case U64 => U64OntoZeros(v, prefix, m);
    case I64 => I64OntoZeros(v, prefix, m);
    case FixedUtf8(w) => TextOntoZeros(w, v, prefix, m);
    case Utf8Array(w, c) => TextsOntoZeros(w, c, v, prefix, m);
    case U64Table(back) => TableOntoZeros(back, v, prefix, m);
  }

  /** An absent field skips its span: the zeros already there are its image. */
  lemma AbsentOntoZeros(prefix: seq<byte>, span: nat, m: nat)
    requires span <= m
    ensures prefix + Zeros(m) == prefix + Zeros(span) + Zeros(m - span)
  {
    ZerosSplit(span, m - span);
    assert Zeros(m) == Zeros(span + (m - span));
    AppendAssoc(prefix, Zeros(span), Zeros(m - span));
  }

  /** A present field leaves its image, and its span read back afterwards is the image's length. */
  lemma PresentOntoZeros(f: Field, v: Value, prefix: seq<byte>, m: nat)
    requires Encodable(f, Some(v))
    requires |Image(f, Some(v))| <= m
    requires f.U64Table? ==> 1 <= f.countBack <= |prefix| && prefix[|prefix| - f.countBack] == |v.ns|
    ensures LeavesImage(f, v, prefix, m)
    ensures GetSpan(f, prefix + Image(f, Some(v)) + Zeros(m - |Image(f, Some(v))|), |prefix|) == |Image(f, Some(v))|
  {
    WriteFieldOntoZeros(f, v, prefix, m);
    var after := prefix + Image(f, Some(v)) + Zeros(m - |Image(f, Some(v))|);
    if f.U64Table? {
      assert after[|prefix| - f.countBack] == |v.ns|;
    }
  }

  lemma SkipStep(ms: seq<Member>, buf: seq<byte>, offset: nat)
    requires |ms| > 0 && ms[0].value.None?
    ensures WriteFields(ms, buf, offset) == WriteFields(ms[1..], buf, offset + DeclaredSpan(ms[0].layout))
  {
  }

  lemma WriteStep(ms: seq<Member>, buf: seq<byte>, offset: nat, after: seq<byte>)
    requires |ms| > 0 && ms[0].value.Some?
    requires WriteField(ms[0].layout, ms[0].value.value, buf, offset) == Outcome(after, None)
    ensures WriteFields(ms, buf, offset) == WriteFields(ms[1..], after, offset + GetSpan(ms[0].layout, after, offset))
  {
  }

  /** An absent first member leaves its zeros and the rest of the struct is encoded after its span. */
  lemma AbsentFirstOntoZeros(ms: seq<Member>, prefix: seq<byte>, m: nat)
    requires |ms| > 0 && ms[0].value.None?
    requires DeclaredSpan(ms[0].layout) <= m
    ensures WriteFields(ms, prefix + Zeros(m), |prefix|)
         == WriteFields(ms[1..], prefix + Zeros(DeclaredSpan(ms[0].layout)) + Zeros(m - DeclaredSpan(ms[0].layout)),
                        |prefix + Zeros(DeclaredSpan(ms[0].layout))|)
  {
    var span := DeclaredSpan(ms[0].layout);
    assert prefix + Zeros(m) == prefix + Zeros(span) + Zeros(m - span) by {
      AbsentOntoZeros(prefix, span, m);
    }
    SkipStep(ms, prefix + Zeros(m), |prefix|);
  }

  /** A present first member leaves its image and the rest of the struct is encoded after it. */
  lemma PresentFirstOntoZeros(ms: seq<Member>, prefix: seq<byte>, m: nat)
    requires |ms| > 0 && ms[0].value.Some?
    requires Encodable(ms[0].layout, ms[0].value)
    requires |Image(ms[0].layout, ms[0].value)| <= m
    requires ms[0].layout.U64Table? ==>
      1 <= ms[0].layout.countBack <= |prefix| && prefix[|prefix| - ms[0].layout.countBack] == |ms[0].value.value.ns|
    ensures WriteFields(ms, prefix + Zeros(m), |prefix|)
         == WriteFields(ms[1..], prefix + Image(ms[0].layout, ms[0].value) + Zeros(m - |Image(ms[0].layout, ms[0].value)|),
                        |prefix + Image(ms[0].layout, ms[0].value)|)
  {
    var f, v := ms[0].layout, ms[0].value.value;
    var image := Image(ms[0].layout, ms[0].value);
    var after := prefix + image + Zeros(m - |image|);
    assert WriteField(f, v, prefix + Zeros(m), |prefix|) == Outcome(after, None) && GetSpan(f, after, |prefix|) == |prefix + image| - |prefix| by {
      assert Image(f, Some(v)) == image;
      PresentOntoZeros(f, v, prefix, m);
    }
    WriteStep(ms, prefix + Zeros(m), |prefix|, after);
  }

  /** The first member, present or absent, leaves its image and the rest of the struct is encoded after it. */
  lemma FirstFieldOntoZeros(ms: seq<Member>, prefix: seq<byte>, m: nat)
    requires |ms| > 0 && Encodable(ms[0].layout, ms[0].value)
    requires |Image(ms[0].layout, ms[0].value)| <= m
    requires ms[0].layout.U64Table? ==>
      1 <= ms[0].layout.countBack <= |prefix| && prefix[|prefix| - ms[0].layout.countBack] == |ms[0].value.value.ns|
    ensures WriteFields(ms, prefix + Zeros(m), |prefix|)
         == WriteFields(ms[1..], prefix + Image(ms[0].layout, ms[0].value) + Zeros(m - |Image(ms[0].layout, ms[0].value)|),
                        |prefix + Image(ms[0].layout, ms[0].value)|)
  {
    if ms[0].value.None? {
      assert Image(ms[0].layout, ms[0].value) == Zeros(DeclaredSpan(ms[0].layout));
      AbsentFirstOntoZeros(ms, prefix, m);
    } else {
      PresentFirstOntoZeros(ms, prefix, m);
    }
  }

  lemma DropAppend(ms: seq<Member>, rest: seq<Member>)
    requires |ms| > 0
    ensures (ms + rest)[0] == ms[0] && (ms + rest)[1..] == ms[1..] + rest
  {
  }

  /**
   * The spans tile: the leading members of a struct, encoded right after
   * `prefix` into a zero-filled remainder, leave their images back to back,
   * each at the offset the previous spans add up to, throw nothing, and hand
   * the remaining members the offset where those images end.
   */
  lemma {:induction false} WriteFieldsThen(ms: seq<Member>, rest: seq<Member>, prefix: seq<byte>, m: nat)
    requires AllEncodable(ms)
    requires |Images(ms)| <= m
    requires CountsAgree(ms, prefix)
    ensures WriteFields(ms + rest, prefix + Zeros(m), |prefix|)
         == WriteFields(rest, prefix + Images(ms) + Zeros(m - |Images(ms)|), |prefix + Images(ms)|)
    decreases |ms|
  {
    if |ms| == 0 {
      assert ms + rest == rest;
      assert prefix + Images(ms) == prefix;
    } else {
      var image := Image(ms[0].layout, ms[0].value);
      assert Images(ms) == image + Images(ms[1..]);
      WriteFieldsThen(ms[1..], rest, prefix + image, m - |image|);
      DropAppend(ms, rest);
      FirstFieldOntoZeros(ms + rest, prefix, m);
      AppendAssoc(prefix, image, Images(ms[1..]));
    }
  }

  /** A whole struct whose values are all encodable and whose images fit the buffer encodes to its images, zero-padded. */
  lemma WriteFieldsOntoZeros(ms: seq<Member>, prefix: seq<byte>, m: nat)
    requires AllEncodable(ms)
    requires |Images(ms)| <= m
    requires CountsAgree(ms, prefix)
    ensures WriteFields(ms, prefix + Zeros(m), |prefix|) == Outcome(prefix + Images(ms) + Zeros(m - |Images(ms)|), None)
  {
    WriteFieldsThen(ms, [], prefix, m);
    assert ms + [] == ms;
  }

  /* ---- Structs of fixed-span fields ---- */

  /** The spans the fields declare, added up: the buffer size a struct of them needs. */
  function Span(fields: seq<Field>): nat
    decreases |fields|
  {
    if |fields| == 0 then 0 else DeclaredSpan(fields[0]) + Span(fields[1..])
  }

  lemma {:induction false} SpanAppend(fields: seq<Field>, more: seq<Field>)
    ensures Span(fields + more) == Span(fields) + Span(more)
    decreases |fields|
  {
    if |fields| == 0 {
      assert fields + more == more;
    } else {
      assert (fields + more)[0] == fields[0] && (fields + more)[1..] == fields[1..] + more;
      SpanAppend(fields[1..], more);
    }
  }

  /** The offset of the member after `k` is `k`'s offset plus its span. */
  lemma SpanStep(fields: seq<Field>, k: nat)
    requires k < |fields|
    ensures Span(fields[..k + 1]) == Span(fields[..k]) + DeclaredSpan(fields[k])
  {
    assert fields[..k + 1] == fields[..k] + [fields[k]];
    SpanAppend(fields[..k], [fields[k]]);
  }

  /** Every member has a fixed span and a value its field encodes; `fields` are the members' layouts. */
  predicate FixedAndEncodable(ms: seq<Member>, fields: seq<Field>) {
    && |ms| == |fields|
    && forall i :: 0 <= i < |ms| ==> ms[i].layout == fields[i] && !fields[i].U64Table? && Encodable(fields[i], ms[i].value)
  }

  lemma FixedRest(ms: seq<Member>, fields: seq<Field>)
    requires FixedAndEncodable(ms, fields) && |ms| > 0
    ensures FixedAndEncodable(ms[1..], fields[1..])
  {
    forall i | 0 <= i < |ms| - 1
      ensures ms[1..][i].layout == fields[1..][i] && !fields[1..][i].U64Table? && Encodable(fields[1..][i], ms[1..][i].value)
    {
      assert ms[1..][i] == ms[i + 1] && fields[1..][i] == fields[i + 1];
    }
  }

  /** A struct of fixed-span members meets the tiling lemma's conditions and its images fill exactly its span. */
  lemma {:induction false} FixedImages(ms: seq<Member>, fields: seq<Field>, written: seq<byte>)
    requires FixedAndEncodable(ms, fields)
    ensures AllEncodable(ms) && CountsAgree(ms, written)
    ensures |Images(ms)| == Span(fields)
    decreases |ms|
  {
    if |ms| > 0 {
      FixedRest(ms, fields);
      assert ms[0].layout == fields[0] && !fields[0].U64Table? && Encodable(fields[0], ms[0].value);
      FixedImages(ms[1..], fields[1..], written + Image(ms[0].layout, ms[0].value));
    }
  }

  /**
   * A struct of fixed-span fields whose values all pass their checks, encoded
   * into a zero-filled buffer of exactly its span, throws nothing and leaves
   * its images back to back.
   */
  lemma FixedOntoZeros(ms: seq<Member>, fields: seq<Field>)
    requires FixedAndEncodable(ms, fields)
    ensures |Images(ms)| == Span(fields)
    ensures WriteFields(ms, Zeros(Span(fields)), 0) == Outcome(Images(ms), None)
  {
    FixedImages(ms, fields, []);
    WriteFieldsOntoZeros(ms, [], Span(fields));
    assert [] + Zeros(Span(fields)) == Zeros(Span(fields));
    assert [] + Images(ms) + Zeros(0) == Images(ms);
  }

  lemma {:induction false} ImagesAppend(ms: seq<Member>, rest: seq<Member>)
    ensures Images(ms + rest) == Images(ms) + Images(rest)
    decreases |ms|
  {
    if |ms| == 0 {
      assert ms + rest == rest;
    } else {
      ImagesAppend(ms[1..], rest);
      DropAppend(ms, rest);
      AppendAssoc(Image(ms[0].layout, ms[0].value), Images(ms[1..]), Images(rest));
    }
  }

  lemma FixedPrefix(ms: seq<Member>, fields: seq<Field>, k: nat)
    requires FixedAndEncodable(ms, fields) && k <= |ms|
    ensures FixedAndEncodable(ms[..k], fields[..k])
  {
    forall i | 0 <= i < k
      ensures ms[..k][i].layout == fields[..k][i] && !fields[..k][i].U64Table? && Encodable(fields[..k][i], ms[..k][i].value)
    {
      assert ms[..k][i] == ms[i] && fields[..k][i] == fields[i];
    }
  }

  /** Member `k`'s image sits in the struct's encoding at the offset the spans before it add up to. */
  lemma {:induction false} Slot(ms: seq<Member>, fields: seq<Field>, k: nat)
    requires FixedAndEncodable(ms, fields) && k < |ms|
    ensures Span(fields[..k]) + DeclaredSpan(fields[k]) <= |Images(ms)|
    ensures Images(ms)[Span(fields[..k])..Span(fields[..k]) + DeclaredSpan(fields[k])] == Image(fields[k], ms[k].value)
  {
    ImagesSplit(ms, k);
    FixedPrefix(ms, fields, k);
    FixedImages(ms[..k], fields[..k], []);
    FixedImages(ms, fields, []);
    MiddleSlice(Images(ms[..k]), Image(ms[k].layout, ms[k].value), Images(ms[k + 1..]));
  }

  /** The images of a struct's members: those before member `k`, then member `k`'s, then those after it. */
  lemma ImagesSplit(ms: seq<Member>, k: nat)
    requires k < |ms|
    ensures Images(ms) == Images(ms[..k]) + (Image(ms[k].layout, ms[k].value) + Images(ms[k + 1..]))
  {
    assert ms[..k] + ms[k..] == ms;
    ImagesAppend(ms[..k], ms[k..]);
    assert ms[k..][0] == ms[k] && ms[k..][1..] == ms[k + 1..];
  }

  /* ---- An encode that throws nothing had a valid value in every present field ---- */

  lemma {:induction false} WriteTextsChecks(width: nat, ts: seq<JsString>, buf: seq<byte>, pos: nat)
    ensures WriteTexts(width, ts, buf, pos).failure.None? ==> TextsFit(width, ts)
    decreases |ts|
  {
    if |ts| > 0 {
      match Layout.WriteFixedUtf8(width, ts[0], buf, pos)
      case Err(_) =>
      case Ok((after, n)) => WriteTextsChecks(width, ts[1..], after, pos + n);
    }
  }

  lemma {:induction false} WriteU64sChecks(ns: seq<int>, buf: seq<byte>, pos: nat)
    ensures WriteU64s(ns, buf, pos).failure.None? ==> AllU64(ns)
    decreases |ns|
  {
    if |ns| > 0 {
      match Layout.WriteU64(ns[0], buf, pos)
      case Err(_) =>
      case Ok((after, n)) => WriteU64sChecks(ns[1..], after, pos + n);
    }
  }

  lemma WriteFieldChecks(f: Field, v: Value, buf: seq<byte>, offset: nat)
    ensures WriteField(f, v, buf, offset).failure.None? ==> Conforms(f, Some(v)) && Valid(f, v)
  {
    if Conforms(f, Some(v)) {
      match f
      case Utf8Array(w, _) => WriteTextsChecks(w, v.ts, buf, offset);
      case U64Table(_) => WriteU64sChecks(v.ns, buf, offset);
      case _ =>
    }
  }

  /** Every present value of a struct that encodes without throwing passed its field's checks. */
  lemma {:induction false} WriteFieldsChecks(ms: seq<Member>, buf: seq<byte>, offset: nat)
    ensures WriteFields(ms, buf, offset).failure.None? ==> AllValid(ms)
    decreases |ms|
  {
    if |ms| > 0 {
      assert WriteFields(ms, buf, offset) == WriteFirst(ms, buf, offset);
      if ms[0].value.None? {
        WriteFieldsChecks(ms[1..], buf, offset + DeclaredSpan(ms[0].layout));
      } else {
        var o := WriteField(ms[0].layout, ms[0].value.value, buf, offset);
        WriteFieldChecks(ms[0].layout, ms[0].value.value, buf, offset);
        if o.failure.None? {
          WriteFieldsChecks(ms[1..], o.buf, offset + GetSpan(ms[0].layout, o.buf, offset));
        }
      }
    }
  }

  /** In the encoding of a fixed-span struct, member `k`'s image starts where the spans before it end. */
  lemma {:induction false} FixedSlot(ms: seq<Member>, fields: seq<Field>, k: nat, start: nat)
    requires FixedAndEncodable(ms, fields) && k < |ms| && start == Span(fields[..k])
    ensures start + DeclaredSpan(fields[k]) <= Span(fields)
    ensures WriteFields(ms, Zeros(Span(fields)), 0).buf[start..start + DeclaredSpan(fields[k])] == Image(fields[k], ms[k].value)
  {
    FixedOntoZeros(ms, fields);
    Slot(ms, fields, k);
  }

  /** A `u8` member's byte, at its offset. */
  lemma {:induction false} ByteSlot(ms: seq<Member>, fields: seq<Field>, k: nat, start: nat)
    requires FixedAndEncodable(ms, fields) && k < |ms| && start == Span(fields[..k])
    requires fields[k] == U8 && ms[k].value.Some?
    ensures start < Span(fields) && ms[k].value.value.Int? && 0 <= ms[k].value.value.n < 256
    ensures WriteFields(ms, Zeros(Span(fields)), 0).buf[start] == ms[k].value.value.n
  {
    FixedSlot(ms, fields, k, start);
    var p := WriteFields(ms, Zeros(Span(fields)), 0).buf;
    assert p[start..start + 1][0] == p[start];
  }

  /** A text member whose UTF-8 bytes fill its width, at its offset. */
  lemma {:induction false} TextSlot(ms: seq<Member>, fields: seq<Field>, k: nat, start: nat, s: JsString)
    requires FixedAndEncodable(ms, fields) && k < |ms| && start == Span(fields[..k])
    requires fields[k].FixedUtf8? && ms[k].value == Some(Text(s)) && |Utf8.Encode(s)| == fields[k].width
    ensures start + fields[k].width <= Span(fields)
    ensures WriteFields(ms, Zeros(Span(fields)), 0).buf[start..start + fields[k].width] == Utf8.Encode(s)
  {
    FixedSlot(ms, fields, k, start);
    assert Utf8.Encode(s) + Zeros(0) == Utf8.Encode(s);
  }

  /** What an encode that threw nothing says about one present member. */
  lemma {:induction false} AllValidAt(ms: seq<Member>, i: nat)
    requires AllValid(ms) && i < |ms| && ms[i].value.Some?
    ensures Conforms(ms[i].layout, ms[i].value) && Valid(ms[i].layout, ms[i].value.value)
    decreases i
  {
    if i > 0 {
      assert ms[1..][i - 1] == ms[i];
      AllValidAt(ms[1..], i - 1);
    }
  }

  /** A struct of one present member encodes as that member's field does. */
  lemma WriteOne(ms: seq<Member>, buf: seq<byte>, offset: nat)
    requires |ms| == 1 && ms[0].value.Some?
    ensures WriteFields(ms, buf, offset) == WriteField(ms[0].layout, ms[0].value.value, buf, offset)
  {
    var o := WriteField(ms[0].layout, ms[0].value.value, buf, offset);
    assert ms[1..] == [];
    assert WriteFields(ms, buf, offset) == WriteFirst(ms, buf, offset);
    if o.failure.None? {
      assert WriteFields(ms[1..], o.buf, offset + GetSpan(ms[0].layout, o.buf, offset)) == Outcome(o.buf, None);
    }
  }

  /* ---- In place, on a `Buffer` ---- */

  /** The error an in-place encode returned, if any. */
  function Failure(r: Result<nat, Error>): (e: Option<Error>)
    ensures e.Some? <==> r.Err?
    ensures r.Err? ==> e.value == r.error
  {
    if r.Err? then Some(r.error) else None
  }

  /** An in-place encode that performed its specification leaves what the lifted specification says. */
  lemma LiftPerformed(r: Result<nat, Error>, after: seq<byte>, before: seq<byte>, spec: Result<(seq<byte>, nat), Error>)
    requires Layout.Performed(r, after, before, spec)
    ensures Outcome(after, Failure(r)) == Lift(spec, before)
  {
  }

  lemma WriteTextsStepOk(width: nat, ts: seq<JsString>, i: nat, buf: seq<byte>, pos: nat, after: seq<byte>, n: nat)
    requires i < |ts| && Layout.WriteFixedUtf8(width, ts[i], buf, pos) == Ok((after, n))
    ensures WriteTexts(width, ts[i..], buf, pos) == WriteTexts(width, ts[i + 1..], after, pos + n)
  {
    assert ts[i..][0] == ts[i] && ts[i..][1..] == ts[i + 1..];
  }

  lemma WriteTextsStepErr(width: nat, ts: seq<JsString>, i: nat, buf: seq<byte>, pos: nat, e: Error)
    requires i < |ts| && Layout.WriteFixedUtf8(width, ts[i], buf, pos) == Err(e)
    ensures WriteTexts(width, ts[i..], buf, pos) == Outcome(buf, Some(e))
  {
    assert ts[i..][0] == ts[i];
  }

  /** `Sequence.encode` of fixed-length texts: each element where the previous one's returned count ended. */
  method EncodeTexts(width: nat, ts: seq<JsString>, b: array<byte>, pos: nat) returns (failure: Option<Error>)
    modifies b
    ensures Outcome(b[..], failure) == WriteTexts(width, ts, old(b[..]), pos)
  {
    var i: nat, p: nat := 0, pos;
    while i < |ts|
      invariant i <= |ts|
      invariant WriteTexts(width, ts[i..], b[..], p) == WriteTexts(width, ts, old(b[..]), pos)
    {
      ghost var before := b[..];
      var r := Layout.EncodeFixedUtf8(width, ts[i], b, p);
      if r.Err? {
        WriteTextsStepErr(width, ts, i, before, p, r.error);
        return Some(r.error);
      }
      WriteTextsStepOk(width, ts, i, before, p, b[..], r.value);
      i, p := i + 1, p + r.value;
    }
    assert ts[i..] == [];
    return None;
  }

  lemma WriteU64sStepOk(ns: seq<int>, i: nat, buf: seq<byte>, pos: nat, after: seq<byte>, n: nat)
    requires i < |ns| && Layout.WriteU64(ns[i], buf, pos) == Ok((after, n))
    ensures WriteU64s(ns[i..], buf, pos) == WriteU64s(ns[i + 1..], after, pos + n)
  {
    assert ns[i..][0] == ns[i] && ns[i..][1..] == ns[i + 1..];
  }

  lemma WriteU64sStepErr(ns: seq<int>, i: nat, buf: seq<byte>, pos: nat, e: Error)
    requires i < |ns| && Layout.WriteU64(ns[i], buf, pos) == Err(e)
    ensures WriteU64s(ns[i..], buf, pos) == Outcome(buf, Some(e))
  {
    assert ns[i..][0] == ns[i];
  }

  /** `Sequence.encode` of `u64` elements. */
  method EncodeU64s(ns: seq<int>, b: array<byte>, pos: nat) returns (failure: Option<Error>)
    modifies b
    ensures Outcome(b[..], failure) == WriteU64s(ns, old(b[..]), pos)
  {
    var i: nat, p: nat := 0, pos;
    while i < |ns|
      invariant i <= |ns|
      invariant WriteU64s(ns[i..], b[..], p) == WriteU64s(ns, old(b[..]), pos)
    {
      ghost var before := b[..];
      var r := Layout.EncodeU64(ns[i], b, p);
      if r.Err? {
        WriteU64sStepErr(ns, i, before, p, r.error);
        return Some(r.error);
      }
      WriteU64sStepOk(ns, i, before, p, b[..], r.value);
      i, p := i + 1, p + r.value;
    }
    assert ns[i..] == [];
    return None;
  }

  /** One field's `encode`, in place. */
  method EncodeField(f: Field, v: Value, b: array<byte>, offset: nat) returns (failure: Option<Error>)
    modifies b
    ensures Outcome(b[..], failure) == WriteField(f, v, old(b[..]), offset)
  {
    if !Conforms(f, Some(v)) {
      return Some(WrongType);
    }
    ghost var before := b[..];
    var r: Result<nat, Error>;
    match f {
      case U8 =>
        r := Layout.EncodeU8(v.n, b, offset);
        LiftPerformed(r, b[..], before, Layout.WriteU8(v.n, before, offset));
      case U64 =>
        r := Layout.EncodeU64(v.n, b, offset);
        LiftPerformed(r, b[..], before, Layout.WriteU64(v.n, before, offset));
      case I64 =>
        r := Layout.EncodeI64(v.n, b, offset);
        LiftPerformed(r, b[..], before, Layout.WriteI64(v.n, before, offset));
      case FixedUtf8(w) =>
        r := Layout.EncodeFixedUtf8(w, v.s, b, offset);
        LiftPerformed(r, b[..], before, Layout.WriteFixedUtf8(w, v.s, before, offset));
      case Utf8Array(w, _) =>
        failure := EncodeTexts(w, v.ts, b, offset);
        return;
      case U64Table(back) =>
        failure := EncodeU64s(v.ns, b, offset);
        if failure.Some? {
          return;
        }
        ghost var written := b[..];
        r := Layout.EncodeU8(|v.ns|, b, offset - back);
        LiftPerformed(r, b[..], written, Layout.WriteU8(|v.ns|, written, offset - back));
    }
    failure := Failure(r);
  }

  lemma WriteFieldsSkip(ms: seq<Member>, i: nat, buf: seq<byte>, offset: nat)
    requires i < |ms| && ms[i].value.None?
    ensures WriteFields(ms[i..], buf, offset) == WriteFields(ms[i + 1..], buf, offset + DeclaredSpan(ms[i].layout))
  {
    assert ms[i..][0] == ms[i] && ms[i..][1..] == ms[i + 1..];
  }

  lemma WriteFieldsPresent(ms: seq<Member>, i: nat, buf: seq<byte>, offset: nat, o: Outcome)
    requires i < |ms| && ms[i].value.Some?
    ensures o == WriteField(ms[i].layout, ms[i].value.value, buf, offset) && o.failure.Some? ==>
      WriteFields(ms[i..], buf, offset) == o
    ensures o == WriteField(ms[i].layout, ms[i].value.value, buf, offset) && o.failure.None? ==>
      WriteFields(ms[i..], buf, offset) == WriteFields(ms[i + 1..], o.buf, offset + GetSpan(ms[i].layout, o.buf, offset))
  {
    assert ms[i..][0] == ms[i] && ms[i..][1..] == ms[i + 1..];
  }

  /**
   * `Structure.encode(src, b, offset)`: each member in turn; an absent value
   * is skipped but its span still counts, a table's span is read back from
   * its count byte, and the first throw ends the encode.
   */
  method EncodeFields(ms: seq<Member>, b: array<byte>, offset: nat) returns (failure: Option<Error>)
    modifies b
    ensures Outcome(b[..], failure) == WriteFields(ms, old(b[..]), offset)
  {
    var i: nat, pos: nat := 0, offset;
    while i < |ms|
      invariant i <= |ms|
      invariant WriteFields(ms[i..], b[..], pos) == WriteFields(ms, old(b[..]), offset)
    {
      if ms[i].value.None? {
        WriteFieldsSkip(ms, i, b[..], pos);
        pos := pos + DeclaredSpan(ms[i].layout);
      } else {
        ghost var before := b[..];
        WriteFieldsPresent(ms, i, before, pos, WriteField(ms[i].layout, ms[i].value.value, before, pos));
        failure := EncodeField(ms[i].layout, ms[i].value.value, b, pos);
        if failure.Some? {
          return;
        }
        pos := pos + GetSpan(ms[i].layout, b[..], pos);
      }
      i := i + 1;
    }
    assert ms[i..] == [];
    return None;
  }
}
