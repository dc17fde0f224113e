/** Which of two versions is newer, said of their text. */
module VersionsNewer {
  import opened Bytes
  import opened Sorting
  import opened Decimal
  import opened Versions

  /** Nothing that is written next to it belongs to the run. */
  predicate Apart(left: bytes, right: bytes) {
    left == [] || right == [] || !SameKind(left[|left| - 1], right[0])
  }

  /** They are the same up to a place, and from there on the one has more, or a greater byte. */
  predicate PartsAt(x: bytes, y: bytes, k: nat) {
    k < |x| && k <= |y| && x[..k] == y[..k] && (k == |y| || x[k] > y[k])
  }

  /** The bytes of the one come after those of the other, as dictionaries have it. */
  ghost predicate ComesAfter(x: bytes, y: bytes) {
    exists k: nat :: PartsAt(x, y, k)
  }

  lemma {:induction false} ComesAfterIff(x: bytes, y: bytes)
    ensures CompareBytes(x, y) == 1 <==> ComesAfter(x, y)
  {
    hide ComesAfter;
    if x == [] || y == [] || x[0] != y[0] {
      AfterAtOnce(x, y);
    } else {
      ComesAfterIff(x[1..], y[1..]);
      AfterLater(x[0], x[1..], y[1..]);
      assert x == [x[0]] + x[1..] && y == [x[0]] + y[1..];
    }
  }

  lemma AfterAtOnce(x: bytes, y: bytes)
    requires x == [] || y == [] || x[0] != y[0]
    ensures ComesAfter(x, y) <==> x != [] && (y == [] || x[0] > y[0])
  {
    if x != [] && (y == [] || x[0] > y[0]) {
      assert PartsAt(x, y, 0);
    }
    if ComesAfter(x, y) {
      var k: nat :| PartsAt(x, y, k);
      SameFirst(x, y, k);
    }
  }

  lemma SameFirst(x: bytes, y: bytes, k: nat)
    ensures 0 < k <= |x| && k <= |y| && x[..k] == y[..k] ==> x[0] == y[0]
  {
    if 0 < k <= |x| && k <= |y| && x[..k] == y[..k] {
      var front := x[..k];
      assert front[0] == x[0] && front[0] == y[0];
    }
  }

  lemma AfterLater(c: byte, x: bytes, y: bytes)
    ensures ComesAfter([c] + x, [c] + y) <==> ComesAfter(x, y)
  {
    hide PartsAt;
    if ComesAfter(x, y) {
      var k: nat :| PartsAt(x, y, k);
      PartsLater(c, x, y, k);
    }
    if ComesAfter([c] + x, [c] + y) {
      var k: nat :| PartsAt([c] + x, [c] + y, k);
      NotAtOnce(c, x, y);
      PartsLater(c, x, y, k - 1);
    }
  }

  lemma NotAtOnce(c: byte, x: bytes, y: bytes)
    ensures !PartsAt([c] + x, [c] + y, 0)
  {
  }

  lemma PartsLater(c: byte, x: bytes, y: bytes, k: nat)
    ensures PartsAt([c] + x, [c] + y, k + 1) <==> PartsAt(x, y, k)
  {
    if k < |x| && k <= |y| {
      assert ([c] + x)[..k + 1] == [c] + x[..k] && ([c] + y)[..k + 1] == [c] + y[..k];
      assert ([c] + x[..k])[1..] == x[..k] && ([c] + y[..k])[1..] == y[..k];
    }
  }

  /** A run is made of digits alone, or of letters alone, small ones and capitals alike. */
  lemma RunsAre(s: bytes)
    ensures IsRun(s) <==>
              s != [] &&
              ((forall i | 0 <= i < |s| :: '0' as int <= s[i] <= '9' as int) ||
               (forall i | 0 <= i < |s| :: 'a' as int <= s[i] <= 'z' as int || 'A' as int <= s[i] <= 'Z' as int))
  {
    if IsRun(s) && IsDigit(s[0]) {
      forall i | 0 <= i < |s| ensures '0' as int <= s[i] <= '9' as int {
        assert SameKind(s[i], s[0]);
      }
    }
  }

  lemma {:induction false} KeysAppend(s: seq<bytes>, t: seq<bytes>)
    requires (forall i | 0 <= i < |s| :: IsRun(s[i])) && forall i | 0 <= i < |t| :: IsRun(t[i])
    ensures forall i | 0 <= i < |s + t| :: IsRun((s + t)[i])
    ensures KeysOf(s + t) == KeysOf(s) + KeysOf(t)
  {
    hide KeyOf, IsRun;
    if s == [] {
      assert s + t == t;
    } else {
      assert (s + t)[1..] == s[1..] + t;
      KeysAppend(s[1..], t);
    }
  }

  lemma {:induction false} SameBeginning(front: seq<Key>, xs: seq<Key>, ys: seq<Key>)
    ensures CompareKeys(front + xs, front + ys) == CompareKeys(xs, ys)
  {
    hide CompareKey;
    if front == [] {
      assert front + xs == xs && front + ys == ys;
    } else {
      assert (front + xs)[1..] == front[1..] + xs && (front + ys)[1..] == front[1..] + ys;
      SameBeginning(front[1..], xs, ys);
      KeyOrder(front[0], front[0], front[0]);
    }
  }

  /** A run between two parts that do not touch it. */
  lemma KeysAround(p: bytes, x: bytes, a: bytes)
    requires IsRun(x) && Apart(p, x) && Apart(x, a)
    ensures Keys(p + x + a) == Keys(p) + ([KeyOf(x)] + Keys(a))
  {
    hide Segments, KeysOf, KeyOf, SameKind;
    assert p + x + a == p + (x + a);
    SegmentsSplit(x, a);
    SegmentsSplit(p, x + a);
    SegmentsOfOne(x);
    SegmentsAreRuns(p);
    SegmentsAreRuns(a);
    KeysAppend([x], Segments(a));
    KeysAppend(Segments(p), [x] + Segments(a));
    OneKey(x);
  }

  lemma OneKey(x: bytes)
    requires IsRun(x)
    ensures KeysOf([x]) == [KeyOf(x)]
  {
    assert [x][1..] == [];
  }

  /**
   Two versions that begin alike and then differ in one run: a larger number is newer, whatever its leading zeros; a
   number is newer than a word; of two words the one that comes after is; and nothing that follows matters.
   */
  lemma FirstDifference(p: bytes, x: bytes, y: bytes, a: bytes, b: bytes)
    requires IsRun(x) && IsRun(y) && Apart(p, x) && Apart(p, y) && Apart(x, a) && Apart(y, b)
    ensures IsDigit(x[0]) && IsDigit(y[0]) ==>
              AllDigits(x) && AllDigits(y) && (Value(x) > Value(y) ==> Compare(p + x + a, p + y + b) == 1)
    ensures IsDigit(x[0]) && !IsDigit(y[0]) ==> Compare(p + x + a, p + y + b) == 1
    ensures !IsDigit(x[0]) && !IsDigit(y[0]) && ComesAfter(x, y) ==> Compare(p + x + a, p + y + b) == 1
    ensures KeyOf(x) == KeyOf(y) ==> Compare(p + x + a, p + y + b) == Compare(a, b)
  {
    hide Segments, Keys, ComesAfter, CompareBytes, Value, SameKind;
    KeysAround(p, x, a);
    KeysAround(p, y, b);
    SameBeginning(Keys(p), [KeyOf(x)] + Keys(a), [KeyOf(y)] + Keys(b));
    assert ([KeyOf(x)] + Keys(a))[1..] == Keys(a) && ([KeyOf(y)] + Keys(b))[1..] == Keys(b);
    ComesAfterIff(x, y);
    KeyOrder(KeyOf(x), KeyOf(y), KeyOf(x));
    if IsDigit(x[0]) {
      RunOfDigits(x);
    }
    if IsDigit(y[0]) {
      RunOfDigits(y);
    }
  }

  /** A version that goes on is newer than the one it begins with. */
  lemma LongerIsNewer(p: bytes, x: bytes, a: bytes)
    requires IsRun(x) && Apart(p, x) && Apart(x, a)
    ensures Compare(p + x + a, p) == 1
  {
    hide Segments, Keys, KeyOf, SameKind;
    KeysAround(p, x, a);
    assert Keys(p) + [] == Keys(p);
    SameBeginning(Keys(p), [KeyOf(x)] + Keys(a), []);
  }

  lemma OneDigit(a: byte)
    requires IsDigit(a)
    ensures AllDigits([a]) && Value([a]) == a - 48
  {
    assert [a][..0] == [];
  }

  lemma TwoDigits(a: byte, b: byte)
    requires IsDigit(a) && IsDigit(b)
    ensures AllDigits([a, b]) && Value([a, b]) == 10 * (a - 48) + (b - 48)
  {
    assert [a, b][..1] == [a];
    OneDigit(a);
  }

  lemma ThreeDigits(a: byte, b: byte, c: byte)
    requires IsDigit(a) && IsDigit(b) && IsDigit(c)
    ensures AllDigits([a, b, c]) && Value([a, b, c]) == 100 * (a - 48) + 10 * (b - 48) + (c - 48)
  {
    assert [a, b, c][..2] == [a, b];
    TwoDigits(a, b);
  }

  lemma FivePointFourteen()
    ensures Compare(Ascii("5.14.0-503"), Ascii("5.14.0-427")) == 1
  {
    hide Compare, Value, Ascii;
    var p, x, y := Ascii("5.14.0-"), [53, 48, 51], [52, 50, 55];
    ThreeDigits(53, 48, 51);
    ThreeDigits(52, 50, 55);
    assert Apart(p, x) && Apart(p, y) by { EndsInDash(); }
    FirstDifference(p, x, y, [], []);
    assert Ascii("5.14.0-503") == p + x + [] && Ascii("5.14.0-427") == p + y + [] by { SplitTexts(); }
  }

  lemma EndsInDash()
    ensures Ascii("5.14.0-") == [53, 46, 49, 52, 46, 48, 45]
  {
  }

  lemma {:induction false} AsciiAppend(s: string, t: string)
    ensures Ascii(s + t) == Ascii(s) + Ascii(t)
  {
    if s == "" {
      assert s + t == t;
    } else {
      assert (s + t)[1..] == s[1..] + t;
      AsciiAppend(s[1..], t);
    }
  }

  lemma ThreeChars(s: string, a: byte, b: byte, c: byte)
    requires |s| == 3 && s[0] as int == a && s[1] as int == b && s[2] as int == c
    ensures Ascii(s) == [a, b, c]
  {
    assert Ascii(s[1..][1..][1..]) == [];
    assert Ascii(s[1..][1..]) == [c];
    assert Ascii(s[1..]) == [b, c];
  }

  lemma SplitTexts()
    ensures Ascii("5.14.0-503") == Ascii("5.14.0-") + [53, 48, 51] + []
    ensures Ascii("5.14.0-427") == Ascii("5.14.0-") + [52, 50, 55] + []
  {
    hide Ascii;
    ThreeChars("503", 53, 48, 51);
    ThreeChars("427", 52, 50, 55);
    AsciiAppend("5.14.0-", "503");
    AsciiAppend("5.14.0-", "427");
    assert "5.14.0-503" == "5.14.0-" + "503" && "5.14.0-427" == "5.14.0-" + "427";
  }

  lemma SixPointTen()
    ensures Compare(Ascii("6.10"), Ascii("6.9")) == 1
  {
    hide Compare, Value;
    TwoDigits(49, 48);
    OneDigit(57);
    FirstDifference([54, 46], [49, 48], [57], [], []);
    assert Ascii("6.10") == [54, 46] + [49, 48] + [] && Ascii("6.9") == [54, 46] + [57] + [];
  }

  /** As the comment has it: 5.14.0-503 is newer than 5.14.0-427, and 6.10 newer than 6.9. */
  lemma AsDocumented()
    ensures Compare(Ascii("5.14.0-503"), Ascii("5.14.0-427")) == 1 && Compare(Ascii("6.10"), Ascii("6.9")) == 1
  {
    hide Compare, Ascii;
    FivePointFourteen();
    SixPointTen();
  }
}
