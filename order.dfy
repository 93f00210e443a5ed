/**
 * The order `Array.prototype.sort` uses when it is given no comparator:
 * strings compared code unit by code unit in their UTF-16 encoding.
 */
module StringOrder {
  import opened AbstractFs

  /** Ranks characters the way their UTF-16 encodings compare: a character
      outside the Basic Multilingual Plane starts with a surrogate
      (0xD800..0xDBFF), so it sorts after every character below 0xD800 and
      before every character from 0xE000 to 0xFFFF. */
  function CodeUnitRank(c: char): (k: int)
    ensures c as int < 0xD800 ==> k == c as int
    ensures 0xD800 <= k
        <==> (c as int >= 0xD800)
  {
    if c as int < 0xD800 then c as int
    else if c as int >= 0x10000 then c as int - 0x10000 + 0xD800
    else c as int + 0x110000
  }

  lemma CodeUnitRankInjective(a: char, b: char)
    requires CodeUnitRank(a) == CodeUnitRank(b)
    ensures a == b
  {
  }

  /** Lexicographic order of the UTF-16 encodings, a proper prefix first. */
  predicate LessEq(a: string, b: string) {
    if a == [] then true
    else if b == [] then false
    else if CodeUnitRank(a[0]) != CodeUnitRank(b[0]) then CodeUnitRank(a[0]) < CodeUnitRank(b[0])
    else LessEq(a[1..], b[1..])
  }

  predicate Less(a: string, b: string) {
    LessEq(a, b) && a != b
  }

  lemma {:induction false} Reflexive(a: string)
    ensures LessEq(a, a)
  {
    if a != [] { Reflexive(a[1..]); }
  }

  lemma {:induction false} AntiSymmetric(a: string, b: string)
    requires LessEq(a, b) && LessEq(b, a)
    ensures a == b
  {
    if a != [] && b != [] {
      CodeUnitRankInjective(a[0], b[0]);
      AntiSymmetric(a[1..], b[1..]);
    }
  }

  lemma {:induction false} Transitive(a: string, b: string, c: string)
    requires LessEq(a, b) && LessEq(b, c)
    ensures LessEq(a, c)
  {
    if a != [] && b != [] && c != []
       && CodeUnitRank(a[0]) == CodeUnitRank(b[0]) && CodeUnitRank(b[0]) == CodeUnitRank(c[0]) {
      Transitive(a[1..], b[1..], c[1..]);
    }
  }

  lemma {:induction false} Total(a: string, b: string)
    ensures LessEq(a, b) || LessEq(b, a)
  {
    if a != [] && b != [] && CodeUnitRank(a[0]) == CodeUnitRank(b[0]) {
      Total(a[1..], b[1..]);
    }
  }

  /** The UTF-16 code units of a character: the character itself below
      0x10000, otherwise a high and a low surrogate. */
  function Utf16Units(c: char): (u: seq<int>)
    ensures 1 <= |u| <= 2
    ensures forall k :: 0 <= k < |u| ==> 0 <= u[k] < 0x10000
  {
    if c as int < 0x10000 then [c as int]
    else
      var v := c as int - 0x10000;
      [0xD800 + v / 0x400, 0xDC00 + v % 0x400]
  }

  /** The UTF-16 encoding of a string, as JavaScript stores it. */
  function Utf16(s: string): seq<int> {
    if s == [] then [] else Utf16Units(s[0]) + Utf16(s[1..])
  }

  /** Lexicographic order of code-unit sequences, a proper prefix first:
      the comparison `sort` makes. */
  predicate UnitsLessEq(a: seq<int>, b: seq<int>) {
    if a == [] then true
    else if b == [] then false
    else if a[0] != b[0] then a[0] < b[0]
    else UnitsLessEq(a[1..], b[1..])
  }

  /** A common prefix does not decide the comparison. */
  lemma {:induction false} UnitsCommonPrefix(p: seq<int>, x: seq<int>, y: seq<int>)
    ensures UnitsLessEq(p + x, p + y) == UnitsLessEq(x, y)
    decreases |p|
  {
    if p != [] {
      var px, py := p + x, p + y;
      assert px != [] && py != [] && px[0] == py[0];
      assert px[1..] == p[1..] + x && py[1..] == p[1..] + y;
      UnitsCommonPrefix(p[1..], x, y);
    } else {
      assert p + x == x && p + y == y;
    }
  }

  /** Two different characters are ordered by their encodings as they are
      ordered by their ranks, whatever follows them. */
  lemma FirstCharsDecide(c: char, d: char, x: seq<int>, y: seq<int>)
    requires c != d
    ensures UnitsLessEq(Utf16Units(c) + x, Utf16Units(d) + y) <==> CodeUnitRank(c) < CodeUnitRank(d)
  {
    var u, w := Utf16Units(c) + x, Utf16Units(d) + y;
    if c as int >= 0x10000 && d as int >= 0x10000 {
      var vc, vd := c as int - 0x10000, d as int - 0x10000;
      assert vc == 0x400 * (vc / 0x400) + vc % 0x400;
      assert vd == 0x400 * (vd / 0x400) + vd % 0x400;
      if vc / 0x400 == vd / 0x400 {
        assert u[1..][0] == 0xDC00 + vc % 0x400 && w[1..][0] == 0xDC00 + vd % 0x400;
      }
    }
  }

  /** `LessEq` is the lexicographic order of the UTF-16 encodings: for
      instance U+10000 (the surrogates 0xD800 0xDC00) sorts before U+FFFF. */
  lemma {:induction false} Utf16Order(a: string, b: string)
    ensures LessEq(a, b) <==> UnitsLessEq(Utf16(a), Utf16(b))
  {
    if a != [] && b != [] {
      if a[0] == b[0] {
        UnitsCommonPrefix(Utf16Units(a[0]), Utf16(a[1..]), Utf16(b[1..]));
        Utf16Order(a[1..], b[1..]);
      } else {
        FirstCharsDecide(a[0], b[0], Utf16(a[1..]), Utf16(b[1..]));
        if CodeUnitRank(a[0]) == CodeUnitRank(b[0]) {
          CodeUnitRankInjective(a[0], b[0]);
        }
      }
    }
  }

  /** Each element strictly below every later one: sorted, no duplicates. */
  predicate StrictlySorted(s: seq<string>) {
    forall i, j :: 0 <= i < j < |s| ==> Less(s[i], s[j])
  }

  predicate IsLeast(m: Name, s: set<Name>) {
    m in s && forall y :: y in s ==> LessEq(m, y)
  }

  lemma {:induction false} LeastExists(s: set<Name>)
    requires s != {}
    ensures exists m: Name :: IsLeast(m, s)
    decreases |s|
  {
    var x: Name :| x in s;
    if s == {x} {
      Reflexive(x);
      assert IsLeast(x, s);
    } else {
      LeastExists(s - {x});
      var m: Name :| IsLeast(m, s - {x});
      Total(x, m);
      if LessEq(x, m) {
        forall y | y in s ensures LessEq(x, y) {
          if y == x { Reflexive(x); } else { Transitive(x, m, y); }
        }
        assert IsLeast(x, s);
      } else {
        assert IsLeast(m, s);
      }
    }
  }

  lemma LeastUnique(s: set<Name>)
    ensures forall a: Name, b: Name :: IsLeast(a, s) && IsLeast(b, s) ==> a == b
  {
    forall a: Name, b: Name | IsLeast(a, s) && IsLeast(b, s) ensures a == b {
      assert LessEq(a, b) && LessEq(b, a);
      AntiSymmetric(a, b);
    }
  }

  /** The elements of a finite set of names in ascending order: what
      sorting any listing of the set's elements yields. */
  function SortedElements(s: set<Name>): (r: seq<Name>)
    ensures StrictlySorted(r)
    ensures |r| == |s|
    ensures forall x :: x in r <==> x in s
    decreases |s|
  {
    if s == {} then []
    else
      LeastExists(s);
      LeastUnique(s);
      var m: Name :| IsLeast(m, s);
      var rest := SortedElements(s - {m});
      assert forall j :: 0 <= j < |rest| ==> Less(m, rest[j]) by {
        forall j | 0 <= j < |rest| ensures Less(m, rest[j]) {
          assert rest[j] in rest;
          assert rest[j] in s - {m};
        }
      }
      var r := [m] + rest;
      assert StrictlySorted(r) by {
        forall i, j | 0 <= i < j < |r| ensures Less(r[i], r[j]) {
          assert r[j] == rest[j - 1];
          if 0 < i {
            assert r[i] == rest[i - 1];
          }
        }
      }
      r
  }

  lemma HasElement(r: seq<string>)
    requires r != []
    ensures exists x :: x in r
  {
    assert r[0] in r;
  }

  /** A strictly sorted sequence is determined by its elements. */
  lemma {:induction false} StrictlySortedUnique(r1: seq<string>, r2: seq<string>)
    requires StrictlySorted(r1) && StrictlySorted(r2)
    requires forall x :: x in r1 <==> x in r2
    ensures r1 == r2
    decreases |r1|
  {
    if r1 != [] && r2 != [] {
      assert r1[0] == r2[0] by {
        assert r2[0] in r1 && r1[0] in r2;
        var i :| 0 <= i < |r1| && r1[i] == r2[0];
        var j :| 0 <= j < |r2| && r2[j] == r1[0];
        if r1[0] != r2[0] {
          assert i > 0 && j > 0;
          assert Less(r1[0], r2[0]) && Less(r2[0], r1[0]);
          AntiSymmetric(r1[0], r2[0]);
          assert false;
        }
      }
      forall x ensures x in r1[1..] <==> x in r2[1..] {
        if x in r1[1..] {
          var i :| 0 <= i < |r1[1..]| && r1[1..][i] == x;
          assert Less(r1[0], r1[i + 1]);
          assert x in r1 && x in r2;
          var k :| 0 <= k < |r2| && r2[k] == x;
          assert k != 0;
          assert r2[1..][k - 1] == x;
        }
        if x in r2[1..] {
          var j :| 0 <= j < |r2[1..]| && r2[1..][j] == x;
          assert Less(r2[0], r2[j + 1]);
          assert x in r2 && x in r1;
          var k :| 0 <= k < |r1| && r1[k] == x;
          assert k != 0;
          assert r1[1..][k - 1] == x;
        }
      }
      StrictlySortedUnique(r1[1..], r2[1..]);
    } else {
      if r1 != [] { HasElement(r1); }
      if r2 != [] { HasElement(r2); }
    }
  }
}
