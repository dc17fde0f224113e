/**
 internal/collect/system.go: whether a newer kernel of the running one's flavour is installed. Versions are compared the
 way package managers do: runs of digits as numbers, runs of letters as text.
 */
module Versions {
  import opened Bytes
  import opened Sorting
  import opened Decimal

  predicate IsLetter(c: byte) {
    97 <= c <= 122 || 65 <= c <= 90
  }

  predicate IsAlnum(c: byte) {
    IsDigit(c) || IsLetter(c)
  }

  /** Both digits, or both letters. */
  predicate SameKind(c: byte, d: byte) {
    IsAlnum(c) && IsAlnum(d) && IsDigit(c) == IsDigit(d)
  }

  // ---- segments -------------------------------------------------------------------------------------------------

  /** How many of the first bytes are of c's kind. */
  function RunLength(v: bytes, c: byte): (n: nat)
    ensures n <= |v| && (forall k | 0 <= k < n :: SameKind(v[k], c)) && (n < |v| ==> !SameKind(v[n], c))
  {
    if v != [] && SameKind(v[0], c) then 1 + RunLength(v[1..], c) else 0
  }

  /** The runs of digits and the runs of letters; anything else separates. */
  function Segments(v: bytes): seq<bytes>
    decreases |v|
  {
    if v == [] then []
    else if !IsAlnum(v[0]) then Segments(v[1..])
    else
      var n := RunLength(v, v[0]);
      [v[..n]] + Segments(v[n..])
  }

  /** One kind throughout, and not empty. */
  predicate IsRun(s: bytes) {
    s != [] && forall k | 0 <= k < |s| :: SameKind(s[k], s[0])
  }

  lemma {:induction false} SegmentsAreRuns(v: bytes)
    ensures forall i | 0 <= i < |Segments(v)| :: IsRun(Segments(v)[i])
    decreases |v|
  {
    if v != [] {
      if !IsAlnum(v[0]) {
        SegmentsAreRuns(v[1..]);
      } else {
        SegmentsAreRuns(v[RunLength(v, v[0])..]);
      }
    }
  }

  lemma {:induction false} RunLengthAppend(a: bytes, b: bytes, c: byte)
    requires a == [] || b == [] || !SameKind(a[|a| - 1], b[0]) || !SameKind(a[|a| - 1], c)
    requires a != []
    ensures RunLength(a + b, c) == RunLength(a, c)
  {
    if SameKind(a[0], c) && |a| > 1 {
      assert (a + b)[1..] == a[1..] + b;
      RunLengthAppend(a[1..], b, c);
    } else if SameKind(a[0], c) {
      assert (a + b)[1..] == b && a[1..] == [];
    }
  }

  lemma SegmentsStep(v: bytes)
    ensures v == [] ==> Segments(v) == []
    ensures v != [] && !IsAlnum(v[0]) ==> Segments(v) == Segments(v[1..])
    ensures v != [] && IsAlnum(v[0]) ==>
              RunLength(v, v[0]) > 0 && Segments(v) == [v[..RunLength(v, v[0])]] + Segments(v[RunLength(v, v[0])..])
  {
  }

  /** Nothing crosses a separator or a change between digits and letters. */
  lemma {:induction false} SegmentsSplit(a: bytes, b: bytes)
    requires a == [] || b == [] || !SameKind(a[|a| - 1], b[0])
    ensures Segments(a + b) == Segments(a) + Segments(b)
    decreases |a|
  {
    hide Segments, RunLength, IsAlnum, SameKind;
    SegmentsStep(a);
    SegmentsStep(a + b);
    if a == [] {
      assert a + b == b;
    } else if !IsAlnum(a[0]) {
      assert (a + b)[1..] == a[1..] + b;
      SegmentsSplit(a[1..], b);
    } else {
      RunLengthAppend(a, b, a[0]);
      var n := RunLength(a, a[0]);
      assert (a + b)[..n] == a[..n] && (a + b)[n..] == a[n..] + b;
      SegmentsSplit(a[n..], b);
      assert [a[..n]] + (Segments(a[n..]) + Segments(b)) == [a[..n]] + Segments(a[n..]) + Segments(b);
    }
  }

  /** A run by itself is one segment, and a separator by itself none. */
  lemma SegmentsOfOne(v: bytes)
    ensures IsRun(v) ==> Segments(v) == [v]
    ensures |v| == 1 && !IsAlnum(v[0]) ==> Segments(v) == []
  {
    if IsRun(v) {
      var n := RunLength(v, v[0]);
      assert n == |v| && v[..n] == v && v[n..] == [];
    }
  }

  method VersionSegments(v: bytes) returns (out: seq<bytes>)
    ensures out == Segments(v)
  {
    hide Segments, RunLength;
    out := [];
    var i := 0;
    assert v[0..] == v;
    while i < |v|
      invariant 0 <= i <= |v|
      invariant Segments(v) == out + Segments(v[i..])
    {
      var c := v[i];
      SegmentsStep(v[i..]);
      if !IsAlnum(c) {
        assert v[i..][1..] == v[i + 1..];
        i := i + 1;
      } else {
        var j := RunEnd(v, i);
        assert v[i..][j - i..] == v[j..] && v[i..][..j - i] == v[i..j];
        assert out + ([v[i..j]] + Segments(v[j..])) == out + [v[i..j]] + Segments(v[j..]);
        out := out + [v[i..j]];
        i := j;
      }
    }
    SegmentsStep(v[i..]);
  }

  /** Where the run that starts at i ends. */
  method RunEnd(v: bytes, i: nat) returns (j: nat)
    requires i < |v| && IsAlnum(v[i])
    ensures i < j <= |v| && j - i == RunLength(v[i..], v[i])
  {
    hide RunLength;
    j := i;
    while j < |v| && IsDigit(v[j]) == IsDigit(v[i]) && IsAlnum(v[j])
      invariant i <= j <= |v|
      invariant forall k | i <= k < j :: SameKind(v[k], v[i])
    {
      j := j + 1;
    }
    assert v[i..][0] == v[i];
    RunLengthIs(v[i..], j - i);
  }

  lemma RunLengthIs(v: bytes, n: nat)
    requires 0 < n <= |v| && (forall k | 0 <= k < n :: SameKind(v[k], v[0])) && (n < |v| ==> !SameKind(v[n], v[0]))
    ensures RunLength(v, v[0]) == n
  {
  }

  // ---- the order ------------------------------------------------------------------------------------------------

  /** What a segment stands for. */
  datatype Key = Word(text: bytes) | Num(value: nat)

  function KeyOf(s: bytes): Key
    requires IsRun(s)
  {
    if IsDigit(s[0]) then
      assert AllDigits(s);
      Num(Value(s))
    else Word(s)
  }

  function KeysOf(segments: seq<bytes>): (r: seq<Key>)
    requires forall i | 0 <= i < |segments| :: IsRun(segments[i])
    ensures |r| == |segments|
  {
    if segments == [] then [] else [KeyOf(segments[0])] + KeysOf(segments[1..])
  }

  function Keys(v: bytes): seq<Key> {
    SegmentsAreRuns(v);
    KeysOf(Segments(v))
  }

  /** Numbers above words; numbers by value, words by text. */
  function CompareKey(x: Key, y: Key): int {
    match (x, y)
    case (Num(a), Num(b)) => Sign(a - b)
    case (Num(_), Word(_)) => 1
    case (Word(_), Num(_)) => -1
    case (Word(a), Word(b)) => CompareBytes(a, b)
  }

  /** The first difference decides; what continues is newer than what has ended. */
  function CompareKeys(xs: seq<Key>, ys: seq<Key>): int {
    if xs == [] || ys == [] then Sign(|xs| - |ys|)
    else if CompareKey(xs[0], ys[0]) != 0 then CompareKey(xs[0], ys[0])
    else CompareKeys(xs[1..], ys[1..])
  }

  function Compare(a: bytes, b: bytes): int {
    CompareKeys(Keys(a), Keys(b))
  }

  lemma {:induction false} KeysAt(segments: seq<bytes>, i: nat)
    requires (forall k | 0 <= k < |segments| :: IsRun(segments[k])) && i < |segments|
    ensures KeysOf(segments)[i] == KeyOf(segments[i])
  {
    if i > 0 {
      KeysAt(segments[1..], i - 1);
    }
  }

  lemma RunOfDigits(s: bytes)
    requires IsRun(s) && IsDigit(s[0])
    ensures AllDigits(s) && KeyOf(s) == Num(Value(s))
  {
    hide Value;
  }

  /** One pair of segments, compared as the code does. */
  method CompareSegments(x: bytes, y: bytes) returns (r: int)
    requires IsRun(x) && IsRun(y)
    ensures r == CompareKey(KeyOf(x), KeyOf(y))
  {
    hide Value, Strip, CompareBytes;
    var xNum, yNum := IsDigit(x[0]), IsDigit(y[0]);
    if xNum && !yNum {
      return 1;
    }
    if !xNum && yNum {
      return -1;
    }
    var s, t := x, y;
    if xNum {
      RunOfDigits(x);
      RunOfDigits(y);
      LengthThenText(x, y);
      s, t := Strip(x), Strip(y);
      if |s| != |t| {
        return Sign(|s| - |t|);
      }
    }
    r := CompareBytes(s, t);
  }

  method CompareVersions(a: bytes, b: bytes) returns (r: int)
    ensures r == Compare(a, b)
  {
    hide KeyOf, CompareKey, Segments, IsRun;
    var sa := VersionSegments(a);
    var sb := VersionSegments(b);
    SegmentsAreRuns(a);
    SegmentsAreRuns(b);
    ghost var ka, kb := KeysOf(sa), KeysOf(sb);
    var i := 0;
    assert ka[0..] == ka && kb[0..] == kb;
    while i < |sa| && i < |sb|
      invariant 0 <= i <= |sa| && i <= |sb|
      invariant CompareKeys(ka, kb) == CompareKeys(ka[i..], kb[i..])
    {
      KeysAt(sa, i);
      KeysAt(sb, i);
      assert ka[i..][1..] == ka[i + 1..] && kb[i..][1..] == kb[i + 1..];
      var c := CompareSegments(sa[i], sb[i]);
      if c != 0 {
        return c;
      }
      i := i + 1;
    }
    r := Sign(|sa| - |sb|);
  }

  // ---- it is an order -------------------------------------------------------------------------------------------

  lemma KeyOrder(x: Key, y: Key, z: Key)
    ensures CompareKey(x, y) == -CompareKey(y, x)
    ensures CompareKey(x, y) == 0 <==> x == y
    ensures CompareKey(x, y) <= 0 && CompareKey(y, z) <= 0 ==> CompareKey(x, z) <= 0
    ensures CompareKey(x, y) <= 0 && CompareKey(y, z) <= 0 && CompareKey(x, z) == 0 ==> x == y
  {
    if x.Word? && y.Word? {
      CompareAntisymmetric(x.text, y.text);
      if z.Word? && CompareKey(x, y) <= 0 && CompareKey(y, z) <= 0 {
        CompareTransitive(x.text, y.text, z.text);
      }
    }
  }

  lemma {:induction false} KeysOrder(xs: seq<Key>, ys: seq<Key>)
    ensures CompareKeys(xs, ys) == -CompareKeys(ys, xs)
    ensures CompareKeys(xs, ys) == 0 <==> xs == ys
  {
    hide CompareKey;
    if xs != [] && ys != [] {
      KeyOrder(xs[0], ys[0], xs[0]);
      KeysOrder(xs[1..], ys[1..]);
      assert xs == [xs[0]] + xs[1..] && ys == [ys[0]] + ys[1..];
    }
  }

  lemma {:induction false} KeysTransitive(xs: seq<Key>, ys: seq<Key>, zs: seq<Key>)
    requires CompareKeys(xs, ys) <= 0 && CompareKeys(ys, zs) <= 0
    ensures CompareKeys(xs, zs) <= 0
  {
    hide CompareKey;
    if xs != [] && ys != [] && zs != [] {
      KeyOrder(xs[0], ys[0], zs[0]);
      KeyOrder(ys[0], zs[0], xs[0]);
      if xs[0] == ys[0] == zs[0] {
        KeysTransitive(xs[1..], ys[1..], zs[1..]);
      }
    }
  }

  /** Versions are in a total preorder, and tie exactly when their segments mean the same. */
  lemma VersionOrder(a: bytes, b: bytes, c: bytes)
    ensures Compare(a, a) == 0
    ensures Compare(a, b) == -Compare(b, a)
    ensures Compare(a, b) == 0 <==> Keys(a) == Keys(b)
    ensures Compare(a, b) <= 0 && Compare(b, c) <= 0 ==> Compare(a, c) <= 0
    ensures Compare(a, b) < 0 && Compare(b, c) <= 0 ==> Compare(a, c) < 0
  {
    hide CompareKeys, Keys;
    KeysOrder(Keys(a), Keys(a));
    KeysOrder(Keys(a), Keys(b));
    KeysOrder(Keys(a), Keys(c));
    if Compare(a, b) <= 0 && Compare(b, c) <= 0 {
      KeysTransitive(Keys(a), Keys(b), Keys(c));
      if Compare(a, c) == 0 {
        KeysOrder(Keys(b), Keys(a));
        KeysOrder(Keys(b), Keys(c));
      }
    }
  }

  // ---- flavour --------------------------------------------------------------------------------------------------

  const HASH: byte := 35

  function ShapeFrom(v: bytes, inDigits: bool): bytes {
    if v == [] then []
    else if IsDigit(v[0]) then (if inDigits then [] else [HASH]) + ShapeFrom(v[1..], true)
    else [v[0]] + ShapeFrom(v[1..], false)
  }

  function Shape(v: bytes): bytes {
    ShapeFrom(v, false)
  }

  lemma ShapeStep(v: bytes, i: nat, inDigits: bool, b: bytes)
    requires i < |v|
    ensures var rest := ShapeFrom(v[i + 1..], IsDigit(v[i]));
            b + ShapeFrom(v[i..], inDigits)
              == (if IsDigit(v[i]) && inDigits then b else b + [if IsDigit(v[i]) then HASH else v[i]]) + rest
  {
    assert v[i..][1..] == v[i + 1..];
  }

  method KernelShape(v: bytes) returns (b: bytes)
    ensures b == Shape(v)
  {
    hide ShapeFrom;
    b := [];
    var inDigits := false;
    assert v[0..] == v;
    for i := 0 to |v|
      invariant Shape(v) == b + ShapeFrom(v[i..], inDigits)
    {
      ShapeStep(v, i, inDigits, b);
      if IsDigit(v[i]) {
        if !inDigits {
          b := b + [HASH];
        }
        inDigits := true;
      } else {
        inDigits := false;
        b := b + [v[i]];
      }
    }
    ShapeOfNothing(v[|v|..], inDigits);
  }

  lemma ShapeOfNothing(v: bytes, inDigits: bool)
    ensures v == [] ==> ShapeFrom(v, inDigits) == []
  {
  }

  predicate EndsInDigit(v: bytes, before: bool) {
    if v == [] then before else IsDigit(v[|v| - 1])
  }

  lemma ShapeHead(v: bytes, inDigits: bool)
    requires v != []
    ensures var head := if IsDigit(v[0]) then if inDigits then [] else [HASH] else [v[0]];
            ShapeFrom(v, inDigits) == head + ShapeFrom(v[1..], IsDigit(v[0]))
  {
  }

  lemma {:induction false} ShapeAppend(a: bytes, b: bytes, inDigits: bool)
    ensures ShapeFrom(a + b, inDigits) == ShapeFrom(a, inDigits) + ShapeFrom(b, EndsInDigit(a, inDigits))
  {
    hide ShapeFrom;
    if a == [] {
      assert a + b == b;
      ShapeOfNothing(a, inDigits);
    } else {
      assert (a + b)[1..] == a[1..] + b && (a + b)[0] == a[0];
      ShapeHead(a, inDigits);
      ShapeHead(a + b, inDigits);
      ShapeAppend(a[1..], b, IsDigit(a[0]));
      assert EndsInDigit(a[1..], IsDigit(a[0])) == EndsInDigit(a, inDigits);
    }
  }

  lemma {:induction false} ShapeOfDigits(d: bytes, inDigits: bool)
    requires AllDigits(d) && d != []
    ensures ShapeFrom(d, inDigits) == if inDigits then [] else [HASH]
  {
    if |d| > 1 {
      ShapeOfDigits(d[1..], true);
    }
  }

  /** An update changes numbers only, so it keeps the shape. */
  lemma ShapeIgnoresNumbers(a: bytes, d: bytes, e: bytes, b: bytes)
    requires AllDigits(d) && AllDigits(e) && d != [] && e != []
    ensures Shape(a + d + b) == Shape(a + e + b)
  {
    var inDigits := EndsInDigit(a, false);
    ShapeAppend(a + d, b, false);
    ShapeAppend(a, d, false);
    ShapeAppend(a + e, b, false);
    ShapeAppend(a, e, false);
    ShapeOfDigits(d, inDigits);
    ShapeOfDigits(e, inDigits);
  }

  function WithoutDigits(v: bytes): bytes {
    if v == [] then [] else (if IsDigit(v[0]) then [] else [v[0]]) + WithoutDigits(v[1..])
  }

  /** What a version is made of: numbers, whatever they are, and the characters around them. */
  datatype Mark = Number | Char(c: byte)

  function SkeletonFrom(v: bytes, inDigits: bool): seq<Mark> {
    if v == [] then []
    else if IsDigit(v[0]) then (if inDigits then [] else [Number]) + SkeletonFrom(v[1..], true)
    else [Char(v[0])] + SkeletonFrom(v[1..], false)
  }

  function Skeleton(v: bytes): seq<Mark> {
    SkeletonFrom(v, false)
  }

  /** How a mark is written in a shape. */
  function Written(m: Mark): byte {
    if m.Number? then HASH else m.c
  }

  lemma {:induction false} ShapeIsWritten(v: bytes, inDigits: bool)
    ensures var k := SkeletonFrom(v, inDigits);
            |ShapeFrom(v, inDigits)| == |k| &&
              (forall i | 0 <= i < |k| :: ShapeFrom(v, inDigits)[i] == Written(k[i])) &&
            (forall m | m in k :: m.Char? ==> m.c in v && !IsDigit(m.c))
  {
    if v != [] {
      ShapeIsWritten(v[1..], IsDigit(v[0]));
    }
  }

  /** Two marks a shape does not tell apart: the same, or a number and the sign that stands for one. */
  predicate Alike(x: Mark, y: Mark) {
    x == y || (Written(x) == HASH && Written(y) == HASH)
  }

  /** Exactly what it takes for two versions to have one shape: their marks are alike, one by one. */
  lemma SameShapeIff(v: bytes, w: bytes)
    ensures Shape(v) == Shape(w) <==>
              |Skeleton(v)| == |Skeleton(w)| &&
              forall i | 0 <= i < |Skeleton(v)| :: Alike(Skeleton(v)[i], Skeleton(w)[i])
  {
    hide ShapeFrom, SkeletonFrom;
    ShapeIsWritten(v, false);
    ShapeIsWritten(w, false);
    if Shape(v) == Shape(w) {
      forall i | 0 <= i < |Skeleton(v)| ensures Alike(Skeleton(v)[i], Skeleton(w)[i]) {
        assert Shape(v)[i] == Shape(w)[i];
      }
    }
  }

  /** Without that sign in either: the same characters, and numbers in the same places. */
  lemma SameFlavourIff(v: bytes, w: bytes)
    requires HASH !in v && HASH !in w
    ensures Shape(v) == Shape(w) <==> Skeleton(v) == Skeleton(w)
  {
    hide ShapeFrom, SkeletonFrom;
    SameShapeIff(v, w);
    ShapeIsWritten(v, false);
    ShapeIsWritten(w, false);
    if Shape(v) == Shape(w) {
      forall i | 0 <= i < |Skeleton(v)| ensures Skeleton(v)[i] == Skeleton(w)[i] {
        assert Alike(Skeleton(v)[i], Skeleton(w)[i]);
        assert Skeleton(v)[i] in Skeleton(v) && Skeleton(w)[i] in Skeleton(w);
      }
    }
  }

  // ---- the rule in the documentation ----------------------------------------------------------------------------

  /** How many characters stand before each number. */
  function PlacesFrom(k: seq<Mark>, n: nat): seq<nat> {
    if k == [] then [] else if k[0].Number? then [n] + PlacesFrom(k[1..], n) else PlacesFrom(k[1..], n + 1)
  }

  function Places(v: bytes): seq<nat> {
    PlacesFrom(Skeleton(v), 0)
  }

  function TextOf(k: seq<Mark>): bytes {
    if k == [] then [] else (if k[0].Number? then [] else [k[0].c]) + TextOf(k[1..])
  }

  lemma {:induction false} TextIsWithoutDigits(v: bytes, inDigits: bool)
    ensures TextOf(SkeletonFrom(v, inDigits)) == WithoutDigits(v)
  {
    if v != [] {
      TextIsWithoutDigits(v[1..], IsDigit(v[0]));
      var rest := SkeletonFrom(v[1..], IsDigit(v[0]));
      if !IsDigit(v[0]) {
        assert ([Char(v[0])] + rest)[1..] == rest;
      } else if inDigits {
        assert [] + rest == rest && [] + TextOf(rest) == TextOf(rest);
      } else {
        assert ([Number] + rest)[1..] == rest && [] + TextOf(rest) == TextOf(rest);
      }
    }
  }

  lemma {:induction false} PlacesRise(k: seq<Mark>, n: nat)
    ensures forall i | 0 <= i < |PlacesFrom(k, n)| :: PlacesFrom(k, n)[i] >= n
  {
    if k != [] {
      PlacesRise(k[1..], if k[0].Number? then n else n + 1);
    }
  }

  /** The characters and the places of the numbers are all there is to a skeleton. */
  lemma {:induction false} TextAndPlaces(j: seq<Mark>, k: seq<Mark>, n: nat)
    requires TextOf(j) == TextOf(k) && PlacesFrom(j, n) == PlacesFrom(k, n)
    ensures j == k
    decreases |j| + |k|
  {
    PlacesHead(j, n);
    PlacesHead(k, n);
    if j != [] && k != [] {
      assert j == [j[0]] + j[1..] && k == [k[0]] + k[1..];
      if j[0].Number? {
        assert PlacesFrom(j[1..], n) == PlacesFrom(j, n)[1..] && PlacesFrom(k[1..], n) == PlacesFrom(k, n)[1..];
        assert [] + TextOf(j[1..]) == TextOf(j[1..]) && [] + TextOf(k[1..]) == TextOf(k[1..]);
        TextAndPlaces(j[1..], k[1..], n);
      } else {
        assert TextOf(j[1..]) == TextOf(j)[1..] && TextOf(k[1..]) == TextOf(k)[1..];
        TextAndPlaces(j[1..], k[1..], n + 1);
      }
    }
  }

  /** The first mark shows in the places and in the text. */
  lemma PlacesHead(k: seq<Mark>, n: nat)
    ensures k == [] ==> PlacesFrom(k, n) == [] && TextOf(k) == []
    ensures k != [] && k[0].Number? ==> PlacesFrom(k, n) != [] && PlacesFrom(k, n)[0] == n
    ensures k != [] && k[0].Char? ==>
              TextOf(k) != [] && TextOf(k)[0] == k[0].c && (PlacesFrom(k, n) != [] ==> PlacesFrom(k, n)[0] > n)
  {
    if k != [] && k[0].Char? {
      PlacesRise(k[1..], n + 1);
    }
  }

  /** A skeleton as a shape shows it: the sign counts as a number. */
  function Shown(k: seq<Mark>): seq<Mark> {
    if k == [] then [] else [if Written(k[0]) == HASH then Number else k[0]] + Shown(k[1..])
  }

  /** What of a version is neither a number nor the sign, and where those stand. */
  function Letters(v: bytes): bytes {
    TextOf(Shown(Skeleton(v)))
  }

  function SignPlaces(v: bytes): seq<nat> {
    PlacesFrom(Shown(Skeleton(v)), 0)
  }

  lemma {:induction false} ShownAt(k: seq<Mark>)
    ensures |Shown(k)| == |k|
    ensures forall i | 0 <= i < |k| :: Shown(k)[i] == if Written(k[i]) == HASH then Number else k[i]
  {
    if k != [] {
      ShownAt(k[1..]);
    }
  }

  lemma ShownAlike(j: seq<Mark>, k: seq<Mark>)
    ensures Shown(j) == Shown(k) <==> |j| == |k| && forall i | 0 <= i < |j| :: Alike(j[i], k[i])
  {
    hide Shown;
    ShownAt(j);
    ShownAt(k);
    if Shown(j) == Shown(k) {
      forall i | 0 <= i < |j| ensures Alike(j[i], k[i]) {
        assert Shown(j)[i] == Shown(k)[i];
      }
    }
  }

  /** The same for the text alone. */
  function WithoutHash(t: bytes): bytes {
    if t == [] then [] else (if t[0] == HASH then [] else [t[0]]) + WithoutHash(t[1..])
  }

  lemma {:induction false} LettersAreText(k: seq<Mark>)
    ensures TextOf(Shown(k)) == WithoutHash(TextOf(k))
  {
    if k != [] {
      LettersAreText(k[1..]);
      var rest := TextOf(k[1..]);
      assert ([if Written(k[0]) == HASH then Number else k[0]] + Shown(k[1..]))[1..] == Shown(k[1..]);
      assert [] + rest == rest && [] + WithoutHash(rest) == WithoutHash(rest);
      if k[0].Char? {
        assert ([k[0].c] + rest)[1..] == rest;
      }
    }
  }

  /**
   For any two versions: they have one shape if and only if they are the same without numbers and signs, and these stand
   in the same places. So where the documented rule calls them one flavour, being identical without their digits, the
   code does exactly when the places agree too.
   */
  lemma DocumentedRuleIff(v: bytes, w: bytes)
    ensures Shape(v) == Shape(w) <==> Letters(v) == Letters(w) && SignPlaces(v) == SignPlaces(w)
    ensures WithoutDigits(v) == WithoutDigits(w) ==> (Shape(v) == Shape(w) <==> SignPlaces(v) == SignPlaces(w))
  {
    hide ShapeFrom, SkeletonFrom, WithoutDigits, TextOf, PlacesFrom, Shown, WithoutHash, Alike;
    SameShapeIff(v, w);
    ShownAlike(Skeleton(v), Skeleton(w));
    TextIsWithoutDigits(v, false);
    TextIsWithoutDigits(w, false);
    LettersAreText(Skeleton(v));
    LettersAreText(Skeleton(w));
    if Letters(v) == Letters(w) && SignPlaces(v) == SignPlaces(w) {
      TextAndPlaces(Shown(Skeleton(v)), Shown(Skeleton(w)), 0);
    }
  }

  /** Without the sign in either: the same text, and numbers in the same places. */
  lemma SameShapeSameText(v: bytes, w: bytes)
    requires HASH !in v && HASH !in w
    ensures Shape(v) == Shape(w) <==> WithoutDigits(v) == WithoutDigits(w) && Places(v) == Places(w)
  {
    hide ShapeFrom, SkeletonFrom, WithoutDigits, TextOf, PlacesFrom;
    SameFlavourIff(v, w);
    TextIsWithoutDigits(v, false);
    TextIsWithoutDigits(w, false);
    if WithoutDigits(v) == WithoutDigits(w) && Places(v) == Places(w) {
      TextAndPlaces(Skeleton(v), Skeleton(w), 0);
    }
  }

  /** Two versions the rule makes one flavour and the code does not: "rc1" and "rc". */
  lemma PlacesTell()
    ensures WithoutDigits([114, 99, 49]) == WithoutDigits([114, 99]) && Shape([114, 99, 49]) != Shape([114, 99])
  {
    var v, w: bytes := [114, 99, 49], [114, 99];
    assert v[1..] == [99, 49] && v[1..][1..] == [49] && v[1..][1..][1..] == [] && w[1..] == [99] && w[1..][1..] == [];
    assert WithoutDigits([49]) == [] && WithoutDigits([99, 49]) == [99] && WithoutDigits([99]) == [99];
    assert ShapeFrom([49], false) == [HASH] && ShapeFrom([99, 49], false) == [99, HASH] &&
           ShapeFrom([99], false) == [99];
    assert |Shape(v)| == 3 && |Shape(w)| == 2;
  }

  /** Two versions the code makes one flavour and the rule does not: the sign in a version can pass for a number. */
  lemma HashMisleads()
    ensures Shape([HASH]) == Shape([49]) && WithoutDigits([HASH]) != WithoutDigits([49])
  {
    assert ShapeFrom([], false) == [] && [HASH][1..] == [] && [49][1..] == [];
    assert Shape([HASH]) == [HASH];
    ShapeOfDigits([49], false);
    assert WithoutDigits([]) == [] && WithoutDigits([HASH]) == [HASH];
  }

  /** A kernel of the running one's flavour. */
  predicate Rival(v: bytes, running: bytes) {
    Shape(v) == Shape(running)
  }

  method NewerKernel(running: bytes, installed: seq<bytes>) returns (newest: bytes, newer: bool)
    ensures running !in installed ==> newest == [] && !newer
    ensures running in installed ==>
              newest in installed && Rival(newest, running) &&
              (forall v | v in installed && Rival(v, running) :: Compare(v, newest) <= 0) &&
              (newer <==> exists v :: v in installed && Rival(v, running) && Compare(v, running) > 0) &&
              (newer <==> Compare(newest, running) > 0) && (!newer ==> newest == running)
  {
    hide Compare, Shape;
    var found := false;
    for k := 0 to |installed|
      invariant found <==> running in installed[..k]
    {
      assert installed[..k + 1] == installed[..k] + [installed[k]];
      if installed[k] == running {
        found := true;
      }
    }
    assert installed[..|installed|] == installed;
    if !found {
      return [], false;
    }
    var shape := KernelShape(running);
    newest := running;
    VersionOrder(running, running, running);
    for k := 0 to |installed|
      invariant newest in installed && Rival(newest, running)
      invariant newest == running || Compare(newest, running) > 0
      invariant forall j | 0 <= j < k && Rival(installed[j], running) :: Compare(installed[j], newest) <= 0
      invariant Compare(running, newest) <= 0
    {
      var s := KernelShape(installed[k]);
      if s == shape {
        var c := CompareVersions(installed[k], newest);
        StillNewest(installed[..k], running, newest, installed[k]);
        if c > 0 {
          newest := installed[k];
        }
      }
    }
    newer := newest != running;
    forall v | v in installed && Rival(v, running) ensures Compare(v, newest) <= 0 {
      VersionOrder(v, newest, running);
    }
  }

  /** A newer one is at least as new as everything the old one was. */
  lemma StillNewest(seen: seq<bytes>, running: bytes, newest: bytes, v: bytes)
    requires Compare(running, newest) <= 0
    ensures Compare(v, newest) > 0 ==>
              Compare(v, running) > 0 && Compare(running, v) <= 0 && Compare(v, v) <= 0 &&
              forall w | Compare(w, newest) <= 0 :: Compare(w, v) <= 0
  {
    hide Compare;
    if Compare(v, newest) > 0 {
      VersionOrder(v, newest, running);
      VersionOrder(running, newest, v);
      VersionOrder(running, v, v);
      VersionOrder(v, v, v);
      forall w | Compare(w, newest) <= 0 ensures Compare(w, v) <= 0 {
        VersionOrder(w, newest, v);
      }
    }
  }
}
