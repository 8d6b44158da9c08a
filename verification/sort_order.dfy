/** The six orders the image list can be sorted in: by name, modification
    time or length, each ascending or reversed. */
module SortOrder {
  import opened Files

  datatype SortOrder =
    | NameAscending
    | NameDescending
    | ModificationTimeAscending
    | ModificationTimeDescending
    | SizeAscending
    | SizeDescending

  /** The orders in declaration order, as the menu lists them. */
  const AllOrders: seq<SortOrder> := [
    NameAscending, NameDescending,
    ModificationTimeAscending, ModificationTimeDescending,
    SizeAscending, SizeDescending
  ]

  function MenuName(o: SortOrder): (r: string) {
    match o
    case NameAscending => "A-Z"
    case NameDescending => "Z-A"
    case ModificationTimeAscending => "First Modified"
    case ModificationTimeDescending => "Last Modified"
    case SizeAscending => "Smallest"
    case SizeDescending => "Largest"
  }

  /** The menu lists every order once, and no two share a menu name. */
  lemma AllOrdersListsEachOnce()
    ensures |AllOrders| == 6
    ensures forall o: SortOrder :: o in AllOrders
    ensures forall i, j :: 0 <= i < j < |AllOrders| ==> MenuName(AllOrders[i]) != MenuName(AllOrders[j])
  {
    forall o: SortOrder
      ensures o in AllOrders
    {
      match o
      case NameAscending => assert AllOrders[0] == o;
      case NameDescending => assert AllOrders[1] == o;
      case ModificationTimeAscending => assert AllOrders[2] == o;
      case ModificationTimeDescending => assert AllOrders[3] == o;
      case SizeAscending => assert AllOrders[4] == o;
      case SizeDescending => assert AllOrders[5] == o;
    }
  }

  /** `String.compareTo`: at the first position where the strings differ,
      the difference of the two characters; if one is a prefix of the
      other, the difference of the lengths. */
  function StringCompareTo(a: string, b: string): (r: int)
    ensures (r == 0) <==> a == b
    decreases |a|
  {
    if |a| == 0 || |b| == 0 then |a| - |b|
    else if a[0] != b[0] then a[0] as int - b[0] as int
    else
      assert a == [a[0]] + a[1..] && b == [b[0]] + b[1..];
      StringCompareTo(a[1..], b[1..])
  }

  /** Swapping the strings negates the comparison. */
  lemma {:induction false} CompareToIsAntisymmetric(a: string, b: string)
    ensures StringCompareTo(a, b) == -StringCompareTo(b, a)
    decreases |a|
  {
    if |a| > 0 && |b| > 0 && a[0] == b[0] {
      CompareToIsAntisymmetric(a[1..], b[1..]);
    }
  }

  /** Lexicographic order, stated independently of the comparison: `a` is
      a proper prefix of `b`, or the two agree up to some position where
      `a` has the smaller character. */
  ghost predicate LexLess(a: string, b: string) {
    || (|a| < |b| && a == b[..|a|])
    || exists k :: 0 <= k < |a| && k < |b| && a[..k] == b[..k] && a[k] < b[k]
  }

  /** The comparison is negative exactly when `a` comes first. */
  lemma {:induction false} CompareToIsLexicographic(a: string, b: string)
    ensures StringCompareTo(a, b) < 0 <==> LexLess(a, b)
    decreases |a|
  {
    if |a| == 0 || |b| == 0 {
      if |a| < |b| {
        assert a == b[..|a|];
      }
    } else if a[0] != b[0] {
      if a[0] < b[0] {
        assert a[..0] == b[..0];
      }
    } else {
      CompareToIsLexicographic(a[1..], b[1..]);
      LexLessOfTails(a, b);
    }
  }

  /** Strings with the same first character compare as their tails do. */
  lemma LexLessOfTails(a: string, b: string)
    requires |a| > 0 && |b| > 0 && a[0] == b[0]
    ensures LexLess(a, b) <==> LexLess(a[1..], b[1..])
  {
    if LexLess(a, b) {
      LexLessDropsHead(a, b);
    }
    if LexLess(a[1..], b[1..]) {
      LexLessAddsHead(a, b);
    }
  }

  lemma LexLessDropsHead(a: string, b: string)
    requires |a| > 0 && |b| > 0 && a[0] == b[0]
    requires LexLess(a, b)
    ensures LexLess(a[1..], b[1..])
  {
    var a', b' := a[1..], b[1..];
    if |a| < |b| && a == b[..|a|] {
      assert a' == b'[..|a'|];
    } else {
      var k :| 0 <= k < |a| && k < |b| && a[..k] == b[..k] && a[k] < b[k];
      if k == 0 {
        assert false;
      } else {
        assert a'[..k - 1] == a[..k][1..] && b'[..k - 1] == b[..k][1..];
        assert a'[k - 1] < b'[k - 1];
      }
    }
  }

  lemma LexLessAddsHead(a: string, b: string)
    requires |a| > 0 && |b| > 0 && a[0] == b[0]
    requires LexLess(a[1..], b[1..])
    ensures LexLess(a, b)
  {
    var a', b' := a[1..], b[1..];
    if |a'| < |b'| && a' == b'[..|a'|] {
      assert a == [a[0]] + a' && b[..|a|] == [b[0]] + b'[..|a'|];
    } else {
      var k :| 0 <= k < |a'| && k < |b'| && a'[..k] == b'[..k] && a'[k] < b'[k];
      assert a[..k + 1] == [a[0]] + a'[..k] && b[..k + 1] == [b[0]] + b'[..k];
      assert a[k + 1] < b[k + 1];
    }
  }

  /** The comparison orders strings transitively. */
  lemma {:induction false} CompareToIsTransitive(a: string, b: string, c: string)
    requires StringCompareTo(a, b) < 0 && StringCompareTo(b, c) < 0
    ensures StringCompareTo(a, c) < 0
    decreases |a|
  {
    if |a| == 0 || |b| == 0 || |c| == 0 {
    } else if a[0] == b[0] && b[0] == c[0] {
      CompareToIsTransitive(a[1..], b[1..], c[1..]);
    }
  }

  /** `Long.compare`: -1, 0 or 1 as `x` is below, equal to or above `y`. */
  function LongCompare(x: int, y: int): (r: int)
    ensures r < 0 <==> x < y
    ensures r == 0 <==> x == y
  {
    if x < y then -1 else if x == y then 0 else 1
  }

  /** The attribute a sort order compares on. */
  datatype Key = Name | ModificationTime | Size

  function KeyOf(o: SortOrder): (r: Key) {
    match o
    case NameAscending | NameDescending => Name
    case ModificationTimeAscending | ModificationTimeDescending => ModificationTime
    case SizeAscending | SizeDescending => Size
  }

  predicate IsDescending(o: SortOrder) {
    o.NameDescending? || o.ModificationTimeDescending? || o.SizeDescending?
  }

  /** The ascending order on the same key. */
  function Ascending(o: SortOrder): (r: SortOrder)
    ensures KeyOf(r) == KeyOf(o) && !IsDescending(r)
  {
    match KeyOf(o)
    case Name => NameAscending
    case ModificationTime => ModificationTimeAscending
    case Size => SizeAscending
  }

  /** The three key comparators: names by `String.compareTo`, times and
      lengths by `Long.compare`. */
  function CompareByKey(key: Key, a: FileEntry, b: FileEntry): (r: int) {
    match key
    case Name => StringCompareTo(a.name, b.name)
    case ModificationTime => LongCompare(a.lastModified, b.lastModified)
    case Size => LongCompare(a.length, b.length)
  }

  /** The order's comparator; a descending order is the reversed key
      comparator, which compares its arguments swapped. */
  function Compare(o: SortOrder, a: FileEntry, b: FileEntry): (r: int) {
    if IsDescending(o) then CompareByKey(KeyOf(o), b, a) else CompareByKey(KeyOf(o), a, b)
  }

  /** What each comparator looks at: a file comes first in an ascending
      order exactly when its key is smaller (lexicographically for names),
      and in a descending order exactly when it is larger. */
  lemma ComparesByKey(o: SortOrder, a: FileEntry, b: FileEntry)
    ensures o == NameAscending ==> (Compare(o, a, b) < 0 <==> LexLess(a.name, b.name))
    ensures o == NameDescending ==> (Compare(o, a, b) < 0 <==> LexLess(b.name, a.name))
    ensures o == ModificationTimeAscending ==> (Compare(o, a, b) < 0 <==> a.lastModified < b.lastModified)
    ensures o == ModificationTimeDescending ==> (Compare(o, a, b) < 0 <==> a.lastModified > b.lastModified)
    ensures o == SizeAscending ==> (Compare(o, a, b) < 0 <==> a.length < b.length)
    ensures o == SizeDescending ==> (Compare(o, a, b) < 0 <==> a.length > b.length)
  {
    CompareToIsLexicographic(a.name, b.name);
    CompareToIsLexicographic(b.name, a.name);
  }

  /** Files with the same key compare as equal, in both directions, and
      only those: the other attributes are ignored. */
  lemma EqualKeysCompareEqual(o: SortOrder, a: FileEntry, b: FileEntry)
    ensures Compare(o, a, b) == 0 <==> Compare(Ascending(o), a, b) == 0
    ensures KeyOf(o) == Name ==> (Compare(o, a, b) == 0 <==> a.name == b.name)
    ensures KeyOf(o) == ModificationTime ==> (Compare(o, a, b) == 0 <==> a.lastModified == b.lastModified)
    ensures KeyOf(o) == Size ==> (Compare(o, a, b) == 0 <==> a.length == b.length)
  {
  }

  /** A descending order is its ascending order with the arguments swapped. */
  lemma DescendingIsReversed(o: SortOrder, a: FileEntry, b: FileEntry)
    requires IsDescending(o)
    ensures Compare(o, a, b) == Compare(Ascending(o), b, a)
    ensures Compare(o, a, b) == -Compare(Ascending(o), a, b)
  {
    CompareToIsAntisymmetric(a.name, b.name);
  }

  /** Every order meets the comparator contract: swapping the arguments
      negates the result, a zero result means the same place for every
      third file, and the order is transitive. */
  lemma IsComparator(o: SortOrder, a: FileEntry, b: FileEntry, c: FileEntry)
    ensures Compare(o, a, b) == -Compare(o, b, a)
    ensures Compare(o, a, b) == 0 ==> (Compare(o, a, c) < 0 <==> Compare(o, b, c) < 0)
    ensures Compare(o, a, b) < 0 && Compare(o, b, c) < 0 ==> Compare(o, a, c) < 0
  {
    CompareToIsAntisymmetric(a.name, b.name);
    if Compare(o, a, b) < 0 && Compare(o, b, c) < 0 && KeyOf(o) == Name {
      if IsDescending(o) {
        CompareToIsTransitive(c.name, b.name, a.name);
      } else {
        CompareToIsTransitive(a.name, b.name, c.name);
      }
    }
  }
}
