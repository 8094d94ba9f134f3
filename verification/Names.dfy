/** Rust's `String` as a file-system key: well-formed UTF-8 (section 4 of RFC 3629), ordered
    byte by byte, and the ascending enumeration a `BTreeMap` gives of its keys. */
module Names {
  import opened Bytes

  predicate IsTail(b: byte) {
    0x80 <= b <= 0xBF
  }

  /** Length of the well-formed character at the head of `s`, or 0 if there is none. */
  function CharLength(s: seq<byte>): (n: nat)
    requires s != []
    ensures n <= |s|
  {
    if s[0] < 0x80 then 1
    else if 0xC2 <= s[0] <= 0xDF then
      if |s| >= 2 && IsTail(s[1]) then 2 else 0
    else if 0xE0 <= s[0] <= 0xEF then
      if |s| >= 3 && SecondByteFits(s[0], s[1]) && IsTail(s[2]) then 3 else 0
    else if 0xF0 <= s[0] <= 0xF4 then
      if |s| >= 4 && SecondByteFits(s[0], s[1]) && IsTail(s[2]) && IsTail(s[3]) then 4 else 0
    else 0
  }

  /** No overlong forms (E0, F0), no surrogates (ED), nothing above U+10FFFF (F4). */
  predicate SecondByteFits(lead: byte, second: byte) {
    && (if lead == 0xE0 then 0xA0 else if lead == 0xF0 then 0x90 else 0x80) <= second
    && second <= (if lead == 0xED then 0x9F else if lead == 0xF4 then 0x8F else 0xBF)
  }

  /** What `core::str::from_utf8` accepts. */
  predicate IsUtf8(s: seq<byte>) {
    s == [] || (CharLength(s) > 0 && IsUtf8(s[CharLength(s)..]))
  }

  type Name = s: seq<byte> | IsUtf8(s)

  /** `Ord` on `String`: lexicographic on bytes. */
  predicate Less(a: seq<byte>, b: seq<byte>) {
    b != [] && (a == [] || a[0] < b[0] || (a[0] == b[0] && Less(a[1..], b[1..])))
  }

  lemma LessTransitive(a: seq<byte>, b: seq<byte>, c: seq<byte>)
    requires Less(a, b) && Less(b, c)
    ensures Less(a, c)
  {
  }

  lemma LessIrreflexive(a: seq<byte>)
    ensures !Less(a, a)
  {
  }

  lemma {:induction false} LessTotal(a: seq<byte>, b: seq<byte>)
    ensures a == b || Less(a, b) || Less(b, a)
  {
    if a != [] && b != [] && a[0] == b[0] {
      LessTotal(a[1..], b[1..]);
      assert a == [a[0]] + a[1..] && b == [b[0]] + b[1..];
    }
  }

  predicate Ascending(names: seq<Name>) {
    forall i, j :: 0 <= i < j < |names| ==> Less(names[i], names[j])
  }

  predicate Distinct<T(==)>(s: seq<T>) {
    forall i, j :: 0 <= i < j < |s| ==> s[i] != s[j]
  }

  lemma AscendingIsDistinct(names: seq<Name>)
    requires Ascending(names)
    ensures Distinct(names)
  {
    forall i, j | 0 <= i < j < |names| ensures names[i] != names[j] {
      LessIrreflexive(names[i]);
    }
  }

  /** An ascending enumeration is determined by its elements, so saying which names a listing
      holds and that it ascends says what it is. */
  lemma {:induction false} AscendingUnique(a: seq<Name>, b: seq<Name>)
    requires Ascending(a) && Ascending(b)
    requires forall n: Name :: n in a <==> n in b
    ensures a == b
  {
    assert a != [] ==> a[0] in b;
    assert b != [] ==> b[0] in a;
    if a != [] {
      HeadIsLeast(a);
      HeadIsLeast(b);
      if a[0] != b[0] {
        LessTransitive(a[0], b[0], a[0]);
        LessIrreflexive(a[0]);
      }
      forall n: Name ensures n in a[1..] <==> n in b[1..] {
        AscendingIsDistinct(a);
        AscendingIsDistinct(b);
        assert n in a[1..] <==> n in a && n != a[0];
        assert n in b[1..] <==> n in b && n != b[0];
      }
      AscendingUnique(a[1..], b[1..]);
    }
  }

  lemma HeadIsLeast(a: seq<Name>)
    requires Ascending(a) && a != []
    ensures forall n: Name :: n in a ==> n == a[0] || Less(a[0], n)
  {
  }

  predicate IsLeast(k: Name, s: set<Name>) {
    k in s && forall j: Name :: j in s ==> k == j || Less(k, j)
  }

  lemma LeastExists(s: set<Name>)
    requires s != {}
    ensures exists k: Name :: IsLeast(k, s)
  {
    var x :| x in s;
    if s == {x} {
      assert IsLeast(x, s);
    } else {
      LeastExists(s - {x});
      var k: Name :| IsLeast(k, s - {x});
      LessTotal(k, x);
      if Less(x, k) {
        forall j: Name | j in s ensures x == j || Less(x, j) {
          if j != x && j != k {
            LessTransitive(x, k, j);
          }
        }
        assert IsLeast(x, s);
      } else {
        assert IsLeast(k, s);
      }
    }
  }

  ghost predicate IsListing(names: seq<Name>, s: set<Name>) {
    |names| == |s| && Ascending(names) && forall n: Name :: n in names <==> n in s
  }

  lemma ListingExists(s: set<Name>)
    ensures exists names :: IsListing(names, s)
  {
    if s == {} {
      assert IsListing([], s);
    } else {
      LeastExists(s);
      var k: Name :| IsLeast(k, s);
      ListingExists(s - {k});
      var rest :| IsListing(rest, s - {k});
      assert forall i :: 0 <= i < |rest| ==> rest[i] in s - {k};
      assert IsListing([k] + rest, s);
    }
  }

  /** The iteration order of a `BTreeMap` with these keys. */
  ghost function SortedNames(s: set<Name>): (names: seq<Name>)
    ensures |names| == |s| && forall n: Name :: n in names <==> n in s
  {
    ListingExists(s);
    var names :| IsListing(names, s);
    names
  }

  lemma SortedNamesAscend(s: set<Name>)
    ensures Ascending(SortedNames(s)) && Distinct(SortedNames(s))
  {
    ListingExists(s);
    AscendingIsDistinct(SortedNames(s));
  }

  /** `BTreeMap::keys`, by repeated selection of the least remaining key. */
  method KeysInOrder(s: set<Name>) returns (names: seq<Name>)
    ensures names == SortedNames(s)
  {
    names := [];
    var rest := s;
    while rest != {}
      invariant rest <= s && |names| + |rest| == |s|
      invariant Ascending(names)
      invariant forall n: Name :: n in names <==> n in s && n !in rest
      invariant forall i, n: Name :: 0 <= i < |names| && n in rest ==> Less(names[i], n)
      decreases rest
    {
      LeastExists(rest);
      var k: Name :| IsLeast(k, rest);
      names := names + [k];
      rest := rest - {k};
    }
    SortedNamesAscend(s);
    AscendingUnique(names, SortedNames(s));
  }
}
