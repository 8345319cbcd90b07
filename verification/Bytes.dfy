/** Bytes, the optional results that replace the source's out-parameters, and the
    little-endian integers that the card's formats are made of. */
module Bytes {

  datatype Option<+T> = None | Some(value: T)

  type Byte = b: int | 0 <= b < 256
  type Data = seq<Byte>

  /** How many values fit in `n` bytes. */
  function Capacity(n: nat): nat {
    if n == 0 then 1 else 256 * Capacity(n - 1)
  }

  function Le(v: nat, n: nat): (d: Data)
    ensures |d| == n
  {
    if n == 0 then [] else [v % 256] + Le(v / 256, n - 1)
  }

  function FromLe(d: Data): nat {
    if d == [] then 0 else d[0] + 256 * FromLe(d[1..])
  }

  lemma {:induction false} LeRoundTrip(v: nat, n: nat)
    requires v < Capacity(n)
    ensures FromLe(Le(v, n)) == v
  {
    if n > 0 {
      LeRoundTrip(v / 256, n - 1);
      assert Le(v, n)[1..] == Le(v / 256, n - 1);
    }
  }

  lemma {:induction false} FromLeFits(d: Data)
    ensures FromLe(d) < Capacity(|d|)
  {
    if d != [] {
      FromLeFits(d[1..]);
    }
  }

  /** A list without element `i`: what the source's shifting loops leave. */
  function Without<T>(s: seq<T>, i: nat): seq<T>
    requires i < |s|
  {
    s[..i] + s[i + 1..]
  }

  lemma {:induction false} WithoutPutBack<T>(s: seq<T>, i: nat)
    requires i < |s|
    ensures Without(s, i)[..i] + [s[i]] + Without(s, i)[i..] == s
  {
  }

  /** Prefix of `d` before its first zero byte: how the source reads a char array. */
  function CString(d: Data): (s: Data)
    ensures |s| <= |d| && s == d[..|s|]
    ensures 0 !in s
    ensures |s| < |d| ==> d[|s|] == 0
  {
    if d == [] || d[0] == 0 then [] else [d[0]] + CString(d[1..])
  }

  function Concat(parts: seq<Data>): Data {
    if parts == [] then [] else parts[0] + Concat(parts[1..])
  }

  lemma {:induction false} ConcatAppend(parts: seq<Data>, last: Data)
    ensures Concat(parts + [last]) == Concat(parts) + last
  {
    if parts == [] {
      assert parts + [last] == [last];
      assert Concat([last][1..]) == [];
    } else {
      ConcatAppend(parts[1..], last);
      assert (parts + [last])[1..] == parts[1..] + [last];
    }
  }

  /** The bytes before part `k` of a concatenation. */
  lemma {:induction false} ConcatSplit(parts: seq<Data>, k: nat)
    requires k < |parts|
    ensures Concat(parts[..k + 1]) == Concat(parts[..k]) + parts[k]
    ensures Concat(parts[k..]) == parts[k] + Concat(parts[k + 1..])
  {
    assert parts[..k + 1] == parts[..k] + [parts[k]];
    ConcatAppend(parts[..k], parts[k]);
    assert parts[k..][1..] == parts[k + 1..];
  }

  lemma {:induction false} ConcatAround(parts: seq<Data>, k: nat)
    requires k < |parts|
    ensures Concat(parts) == Concat(parts[..k]) + parts[k] + Concat(parts[k + 1..])
  {
    if k == 0 {
      ConcatSplit(parts, 0);
      assert parts[0..] == parts;
      assert parts[..0] == [];
    } else {
      ConcatAround(parts, k - 1);
      ConcatSplit(parts, k - 1);
      ConcatSplit(parts, k);
      assert Concat(parts[..k]) == Concat(parts[..k - 1]) + parts[k - 1];
    }
  }

  lemma {:induction false} Slices(a: Data, b: Data, rest: Data)
    ensures (a + b + rest)[..|a|] == a
    ensures (a + b + rest)[|a|..|a| + |b|] == b
    ensures (a + b + rest)[|a| + |b|..] == rest
  {
  }

  // --- Parsing ---

  /** What a parser found and how many bytes it took. */
  datatype Parsed<+T> = Parsed(value: T, used: nat)

  /** Reads an item at the head of its first argument, which starts so many bytes into the file. */
  type Parser<!T> = (Data, nat) -> Option<Parsed<T>>

  function ParseMany<T>(parse: Parser<T>, d: Data, base: nat, count: nat): Option<seq<T>>
    decreases count
  {
    if count == 0 then Some([])
    else match parse(d, base)
      case None => None
      case Some(Parsed(item, used)) =>
        if used > |d| then None
        else match ParseMany(parse, d[used..], base + used, count - 1)
          case None => None
          case Some(items) => Some([item] + items)
  }

  /** `parse` takes exactly `part` for `item`, whatever follows. */
  ghost predicate Reads<T>(parse: Parser<T>, part: Data, base: nat, item: T) {
    forall rest: Data :: parse(part + rest, base) == Some(Parsed(item, |part|))
  }

  ghost predicate ReadsPart<T>(parse: Parser<T>, before: nat, parts: seq<Data>, items: seq<T>, i: nat)
    requires i < |parts| == |items|
  {
    Reads(parse, parts[i], before + |Concat(parts[..i])|, items[i])
  }

  lemma {:induction false} ReadsPartOf<T>(parse: Parser<T>, before: nat, parts: seq<Data>, items: seq<T>, i: nat,
                       part: Data, at: nat, item: T)
    requires i < |parts| == |items|
    requires part == parts[i] && item == items[i] && at == before + |Concat(parts[..i])|
    requires Reads(parse, part, at, item)
    ensures ReadsPart(parse, before, parts, items, i)
  {
  }

  /** `parse` takes each part for its item when the first part starts at `before`. */
  ghost predicate ReadsEach<T>(parse: Parser<T>, before: nat, parts: seq<Data>, items: seq<T>) {
    && |items| == |parts|
    && forall i :: 0 <= i < |parts| ==> ReadsPart(parse, before, parts, items, i)
  }

  lemma {:induction false} ParseManyStep<T>(parse: Parser<T>, part: Data, rest: Data, base: nat, count: nat, item: T,
                                            items: seq<T>)
    requires count > 0 && parse(part + rest, base) == Some(Parsed(item, |part|))
    requires ParseMany(parse, rest, base + |part|, count - 1) == Some(items)
    ensures ParseMany(parse, part + rest, base, count) == Some([item] + items)
  {
    assert (part + rest)[|part|..] == rest;
  }

  /** A sequence of parts is read back item by item. */
  lemma {:induction false} ParseManyReads<T>(parse: Parser<T>, before: nat, parts: seq<Data>, items: seq<T>, k: nat)
    requires k <= |parts| && ReadsEach(parse, before, parts, items)
    ensures ParseMany(parse, Concat(parts[k..]), before + |Concat(parts[..k])|, |parts| - k) == Some(items[k..])
    decreases |parts| - k
  {
    if k < |parts| {
      ParseManyReads(parse, before, parts, items, k + 1);
      ConcatSplit(parts, k);
      var rest := Concat(parts[k + 1..]);
      assert ReadsPart(parse, before, parts, items, k);
      ParseManyStep(parse, parts[k], rest, before + |Concat(parts[..k])|, |parts| - k, items[k], items[k + 1..]);
      assert items[k..] == [items[k]] + items[k + 1..];
    }
  }

  // --- Records of fixed-width numbers ---

  function TotalWidth(widths: seq<nat>): nat {
    if widths == [] then 0 else widths[0] + TotalWidth(widths[1..])
  }

  lemma {:induction false} TotalWidthAppend(a: seq<nat>, b: seq<nat>)
    ensures TotalWidth(a + b) == TotalWidth(a) + TotalWidth(b)
  {
    if a == [] {
      assert a + b == b;
    } else {
      TotalWidthAppend(a[1..], b);
      assert (a + b)[1..] == a[1..] + b;
    }
  }

  function Pack(widths: seq<nat>, values: seq<nat>): (d: Data)
    requires |values| == |widths|
    ensures |d| == TotalWidth(widths)
  {
    if widths == [] then [] else Le(values[0], widths[0]) + Pack(widths[1..], values[1..])
  }

  function Unpack(widths: seq<nat>, d: Data): (values: seq<nat>)
    requires |d| == TotalWidth(widths)
    ensures |values| == |widths|
  {
    if widths == [] then [] else [FromLe(d[..widths[0]])] + Unpack(widths[1..], d[widths[0]..])
  }

  ghost predicate Fit(widths: seq<nat>, values: seq<nat>)
    requires |values| == |widths|
  {
    forall i :: 0 <= i < |widths| ==> values[i] < Capacity(widths[i])
  }

  lemma {:induction false} PackRoundTrip(widths: seq<nat>, values: seq<nat>)
    requires |values| == |widths| && Fit(widths, values)
    ensures Unpack(widths, Pack(widths, values)) == values
  {
    if widths != [] {
      var d := Pack(widths, values);
      LeRoundTrip(values[0], widths[0]);
      PackRoundTrip(widths[1..], values[1..]);
      assert d[..widths[0]] == Le(values[0], widths[0]);
      assert d[widths[0]..] == Pack(widths[1..], values[1..]);
    }
  }

  lemma {:induction false} UnpackFits(widths: seq<nat>, d: Data)
    requires |d| == TotalWidth(widths)
    ensures Fit(widths, Unpack(widths, d))
  {
    if widths != [] {
      FromLeFits(d[..widths[0]]);
      UnpackFits(widths[1..], d[widths[0]..]);
    }
  }
}
