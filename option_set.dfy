/**
 * OptionSet: a typed bit set over an integral value, with subset and
 * intersection queries, set/clear, union/intersection and a textual form
 * built from a name table. The underlying integral type is fixed at 32 bits.
 */
module OptionSets {
  import opened Buffers

  type Bits = bv32

  /** A row of the name table: the bits it names, and the name. */
  type Entry = (Bits, string)

  /** Bit i of v is set. */
  predicate Has(v: Bits, i: Bits)
    requires i < 32
  {
    (v >> i) & 1 == 1
  }

  /** The bits of v below position n. */
  function Low(v: Bits, n: Bits): Bits
    requires n <= 32
  {
    if n == 32 then v else v & ((1 << n) - 1)
  }

  lemma {:induction false} AgreeBelow(x: Bits, y: Bits, n: Bits)
    requires n <= 32
    requires forall i: Bits :: i < n ==> Has(x, i) == Has(y, i)
    ensures Low(x, n) == Low(y, n)
    decreases n
  {
    if n > 0 {
      AgreeBelow(x, y, n - 1);
      assert Has(x, n - 1) == Has(y, n - 1);
    }
  }

  /** Two values with the same bits are equal. */
  lemma BitsExtensional(x: Bits, y: Bits)
    requires forall i: Bits :: i < 32 ==> Has(x, i) == Has(y, i)
    ensures x == y
  {
    AgreeBelow(x, y, 32);
  }

  /** containsAllOf, and its alias contains. */
  function ContainsAllOf(value: Bits, flags: Bits): bool {
    value & flags == flags
  }

  function ContainsAnyOf(value: Bits, flags: Bits): bool {
    value & flags != 0
  }

  function ContainsNoneOf(value: Bits, flags: Bits): (r: bool)
    ensures r == !ContainsAnyOf(value, flags)
  {
    value & flags == 0
  }

  /** empty() */
  function IsEmpty(value: Bits): bool {
    value == 0
  }

  /** operator bool */
  function IsNonEmpty(value: Bits): (r: bool)
    ensures r == !IsEmpty(value)
  {
    value != 0
  }

  /** operator| */
  function Union(a: Bits, b: Bits): Bits {
    a | b
  }

  /** operator& */
  function Intersection(a: Bits, b: Bits): Bits {
    a & b
  }

  /** The union of a list of sets, one after the other. */
  function UnionAll(args: seq<Bits>): Bits {
    if args == [] then 0 else Union(UnionAll(args[..|args| - 1]), args[|args| - 1])
  }

  // ---------------------------------------------------------------------
  // What the bit operations mean, bit by bit
  // ---------------------------------------------------------------------

  lemma AndBit(x: Bits, y: Bits, i: Bits)
    requires i < 32
    ensures Has(x & y, i) <==> Has(x, i) && Has(y, i)
  {
  }

  lemma OrBit(x: Bits, y: Bits, i: Bits)
    requires i < 32
    ensures Has(x | y, i) <==> Has(x, i) || Has(y, i)
  {
  }

  lemma NotBit(x: Bits, i: Bits)
    requires i < 32
    ensures Has(!x, i) <==> !Has(x, i)
  {
  }

  lemma ZeroBit(i: Bits)
    requires i < 32
    ensures !Has(0, i)
  {
  }

  /** containsAllOf holds exactly when every bit of `flags` is set in `value`. */
  lemma ContainsAllOfIsSubset(value: Bits, flags: Bits)
    ensures ContainsAllOf(value, flags) <==> forall i: Bits :: i < 32 && Has(flags, i) ==> Has(value, i)
  {
    forall i: Bits | i < 32
      ensures Has(value & flags, i) <==> Has(value, i) && Has(flags, i)
    {
      AndBit(value, flags, i);
    }
    if forall i: Bits :: i < 32 && Has(flags, i) ==> Has(value, i) {
      BitsExtensional(value & flags, flags);
    }
  }

  /** containsAnyOf holds exactly when some bit of `flags` is set in `value`. */
  lemma ContainsAnyOfIsOverlap(value: Bits, flags: Bits)
    ensures ContainsAnyOf(value, flags) <==> exists i: Bits :: i < 32 && Has(flags, i) && Has(value, i)
  {
    forall i: Bits | i < 32
      ensures Has(value & flags, i) <==> Has(value, i) && Has(flags, i)
      ensures !Has(0, i)
    {
      AndBit(value, flags, i);
      ZeroBit(i);
    }
    if !exists i: Bits :: i < 32 && Has(flags, i) && Has(value, i) {
      BitsExtensional(value & flags, 0);
    }
  }

  /** containsNoneOf holds exactly when no bit of `flags` is set in `value`. */
  lemma ContainsNoneOfIsDisjoint(value: Bits, flags: Bits)
    ensures ContainsNoneOf(value, flags) <==> forall i: Bits :: i < 32 && Has(flags, i) ==> !Has(value, i)
  {
    ContainsAnyOfIsOverlap(value, flags);
  }

  /** empty() holds exactly when no bit is set; operator bool when some bit is. */
  lemma IsEmptyHasNoBits(value: Bits)
    ensures IsEmpty(value) <==> forall i: Bits :: i < 32 ==> !Has(value, i)
    ensures IsNonEmpty(value) <==> exists i: Bits :: i < 32 && Has(value, i)
  {
    forall i: Bits | i < 32
      ensures !Has(0, i)
    {
      ZeroBit(i);
    }
    if forall i: Bits :: i < 32 ==> !Has(value, i) {
      BitsExtensional(value, 0);
    }
  }

  /** operator| sets the bits set in either operand, operator& those set in both. */
  lemma UnionIntersectionBits(a: Bits, b: Bits, i: Bits)
    requires i < 32
    ensures Has(Union(a, b), i) <==> Has(a, i) || Has(b, i)
    ensures Has(Intersection(a, b), i) <==> Has(a, i) && Has(b, i)
  {
    OrBit(a, b, i);
    AndBit(a, b, i);
  }

  /** The initializer-list constructor's value has a bit set iff some argument does. */
  lemma {:induction false} UnionAllBits(args: seq<Bits>, i: Bits)
    requires i < 32
    ensures Has(UnionAll(args), i) <==> exists j :: 0 <= j < |args| && Has(args[j], i)
  {
    if args == [] {
      ZeroBit(i);
    } else {
      var init := args[..|args| - 1];
      var last := args[|args| - 1];
      UnionAllBits(init, i);
      OrBit(UnionAll(init), last, i);
      assert Has(UnionAll(args), i) <==> Has(UnionAll(init), i) || Has(last, i);
      if exists j :: 0 <= j < |args| && Has(args[j], i) {
        var j :| 0 <= j < |args| && Has(args[j], i);
        if j < |init| {
          assert init[j] == args[j];
        }
      }
      if exists j :: 0 <= j < |init| && Has(init[j], i) {
        var j :| 0 <= j < |init| && Has(init[j], i);
        assert args[j] == init[j];
      }
    }
  }

  /** Clearing `s` leaves no bit of `s` and sets no new bit. */
  lemma ClearContract(v: Bits, s: Bits)
    ensures ContainsNoneOf(v & !s, s) && ContainsAllOf(v, v & !s)
  {
    ClearDisjoint(v, s);
    ClearWithin(v, s);
  }

  lemma ClearWithin(v: Bits, s: Bits)
    ensures v & (v & !s) == v & !s
  {
  }

  /** Clearing `s` from `v` turns off exactly the bits of `s`. */
  lemma ClearBits(v: Bits, s: Bits)
    ensures forall i: Bits :: i < 32 ==> (Has(v & !s, i) <==> Has(v, i) && !Has(s, i))
    ensures ContainsNoneOf(v & !s, s)
  {
    forall i: Bits | i < 32
      ensures Has(v & !s, i) <==> Has(v, i) && !Has(s, i)
    {
      AndBit(v, !s, i);
      NotBit(s, i);
    }
    ClearDisjoint(v, s);
  }

  lemma ClearDisjoint(v: Bits, s: Bits)
    ensures (v & !s) & s == 0
  {
  }

  // ---------------------------------------------------------------------
  // The textual form
  // ---------------------------------------------------------------------

  /** For each table row, whether all of its bits are set in `value`. */
  function Chosen(value: Bits, table: seq<Entry>): seq<bool> {
    seq(|table|, k requires 0 <= k < |table| => ContainsAllOf(value, table[k].0))
  }

  /** A set that contains another chooses every row the other chooses. */
  lemma ChosenMonotone(value: Bits, other: Bits, table: seq<Entry>, k: nat)
    requires ContainsAllOf(value, other) && k < |table|
    requires Chosen(other, table)[k]
    ensures Chosen(value, table)[k]
  {
    ContainsTransitive(value, other, table[k].0);
  }

  /**
   * The names of the chosen rows, in table order, each after a single space
   * unless nothing has been written yet.
   */
  function Render(table: seq<Entry>, hits: seq<bool>): string
    requires |hits| == |table|
  {
    if table == [] then ""
    else
      var n := |table| - 1;
      var acc := Render(table[..n], hits[..n]);
      if hits[n] then (if acc == "" then "" else acc + " ") + table[n].1
      else acc
  }

  /** Rendering one more row appends its name, after a space unless nothing was written. */
  lemma RenderStep(table: seq<Entry>, hits: seq<bool>, k: nat)
    requires |hits| == |table| && k < |table|
    ensures var acc := Render(table[..k], hits[..k]);
      Render(table[..k + 1], hits[..k + 1])
      == if hits[k] then (if acc == "" then "" else acc + " ") + table[k].1 else acc
  {
    assert table[..k + 1][..k] == table[..k];
    assert hits[..k + 1][..k] == hits[..k];
  }

  /** format(): the empty string for an empty set or an empty table, else the rendering. */
  function Format(value: Bits, table: seq<Entry>): string {
    if IsEmpty(value) || table == [] then "" else Render(table, Chosen(value, table))
  }

  /** The names of the chosen rows, in table order. */
  function Selected(table: seq<Entry>, hits: seq<bool>): (names: seq<string>)
    requires |hits| == |table|
    ensures |names| <= |table|
  {
    if table == [] then []
    else
      var n := |table| - 1;
      Selected(table[..n], hits[..n]) + (if hits[n] then [table[n].1] else [])
  }

  /** The usual join of strings with a single space between neighbours. */
  function Join(names: seq<string>): string {
    if names == [] then ""
    else if |names| == 1 then names[0]
    else Join(names[..|names| - 1]) + " " + names[|names| - 1]
  }

  lemma {:induction false} JoinNonEmpty(names: seq<string>)
    requires forall k :: 0 <= k < |names| ==> names[k] != ""
    ensures Join(names) == "" <==> names == []
  {
    if |names| > 1 {
      JoinNonEmpty(names[..|names| - 1]);
    }
  }

  lemma {:induction false} SelectedNonEmpty(table: seq<Entry>, hits: seq<bool>)
    requires |hits| == |table|
    requires forall k :: 0 <= k < |table| ==> table[k].1 != ""
    ensures forall k :: 0 <= k < |Selected(table, hits)| ==> Selected(table, hits)[k] != ""
  {
    if table != [] {
      var n := |table| - 1;
      SelectedNonEmpty(table[..n], hits[..n]);
    }
  }

  /**
   * When no name in the table is empty, the rendering is exactly the
   * chosen rows' names joined by single spaces.
   */
  lemma {:induction false} RenderIsJoin(table: seq<Entry>, hits: seq<bool>)
    requires |hits| == |table|
    requires forall k :: 0 <= k < |table| ==> table[k].1 != ""
    ensures Render(table, hits) == Join(Selected(table, hits))
  {
    if table != [] {
      var n := |table| - 1;
      RenderIsJoin(table[..n], hits[..n]);
      var names := Selected(table[..n], hits[..n]);
      SelectedNonEmpty(table[..n], hits[..n]);
      JoinNonEmpty(names);
      if hits[n] {
        var all := names + [table[n].1];
        assert Selected(table, hits) == all;
        assert all[..|all| - 1] == names;
        var acc := Render(table[..n], hits[..n]);
        assert Render(table, hits) == (if acc == "" then "" else acc + " ") + table[n].1;
        if names == [] {
          assert Join(all) == table[n].1;
        } else {
          assert acc != "";
          assert Join(all) == Join(names) + " " + table[n].1;
        }
        assert Render(table, hits) == Join(all);
      } else {
        assert Selected(table, hits) == names + [];
        assert names + [] == names;
      }
    }
  }

  /** Rendering a prefix of the table yields a prefix of the full rendering. */
  lemma {:induction false} RenderPrefix(table: seq<Entry>, hits: seq<bool>, n: nat)
    requires |hits| == |table| && n <= |table|
    ensures Render(table[..n], hits[..n]) <= Render(table, hits)
    decreases |table| - n
  {
    if n < |table| {
      RenderPrefix(table, hits, n + 1);
      assert table[..n + 1][..n] == table[..n];
      assert hits[..n + 1][..n] == hits[..n];
    } else {
      assert table[..n] == table;
      assert hits[..n] == hits;
    }
  }

  /** A row whose name no other row shares is rendered exactly when it is chosen. */
  lemma {:induction false} SelectedMembers(table: seq<Entry>, hits: seq<bool>, k: nat)
    requires |hits| == |table| && k < |table|
    requires forall j :: 0 <= j < |table| && j != k ==> table[j].1 != table[k].1
    ensures table[k].1 in Selected(table, hits) <==> hits[k]
  {
    var n := |table| - 1;
    if k < n {
      SelectedMembers(table[..n], hits[..n], k);
    } else {
      SelectedAmong(table[..n], hits[..n], table[k].1);
    }
  }

  lemma {:induction false} SelectedAmong(table: seq<Entry>, hits: seq<bool>, name: string)
    requires |hits| == |table|
    requires forall j :: 0 <= j < |table| ==> table[j].1 != name
    ensures name !in Selected(table, hits)
  {
    if table != [] {
      var n := |table| - 1;
      SelectedAmong(table[..n], hits[..n], name);
    }
  }

  /**
   * format() of a non-empty set over a table of distinct, non-empty names:
   * the names of the fully contained rows joined by single spaces, and a
   * name occurs in it exactly when its row's bits are all set.
   */
  lemma FormatNames(value: Bits, table: seq<Entry>, k: nat)
    requires IsNonEmpty(value) && k < |table|
    requires forall j :: 0 <= j < |table| ==> table[j].1 != ""
    requires forall j :: 0 <= j < |table| && j != k ==> table[j].1 != table[k].1
    ensures Format(value, table) == Join(Selected(table, Chosen(value, table)))
    ensures table[k].1 in Selected(table, Chosen(value, table)) <==> ContainsAllOf(value, table[k].0)
  {
    RenderIsJoin(table, Chosen(value, table));
    SelectedMembers(table, Chosen(value, table), k);
  }

  // ---------------------------------------------------------------------
  // The object
  // ---------------------------------------------------------------------

  class OptionSet {
    var value: Bits
    /** Derived::table, the names of the flags. */
    const table: seq<Entry>

    /** The default constructor and the one from literal 0: no bit set. */
    constructor (table: seq<Entry>)
      ensures value == 0 && this.table == table
      ensures IsEmpty(value)
    {
      value := 0;
      this.table := table;
    }

    /** Construction from a single flag value, or from raw bits. */
    constructor FromBits(v: Bits, table: seq<Entry>)
      ensures value == v && this.table == table
    {
      value := v;
      this.table := table;
    }

    /** The initializer-list constructor: the union of all arguments. */
    constructor FromList(args: seq<Bits>, table: seq<Entry>)
      ensures value == UnionAll(args) && this.table == table
    {
      value := 0;
      this.table := table;
      new;
      for k := 0 to |args|
        invariant value == UnionAll(args[..k])
      {
        assert args[..k + 1][..k] == args[..k];
        value := value | args[k];
      }
      assert args[..|args|] == args;
    }

    /** set: turn on the bits of `s`; bits already set stay set. */
    method Set(s: Bits)
      modifies this`value
      ensures value == old(value) | s
      ensures ContainsAllOf(value, s) && ContainsAllOf(value, old(value))
    {
      value := value | s;
    }

    /** clear: turn off the bits of `s`; no bit is turned on. */
    method Clear(s: Bits)
      modifies this`value
      ensures value == old(value) & !s
      ensures ContainsNoneOf(value, s) && ContainsAllOf(old(value), value)
    {
      ClearContract(value, s);
      value := value & !s;
    }

    /** operator|= */
    method UnionWith(that: Bits)
      modifies this`value
      ensures value == old(value) | that
    {
      value := value | that;
    }

    /** operator&= */
    method IntersectWith(that: Bits)
      modifies this`value
      ensures value == old(value) & that
    {
      value := value & that;
    }

    /**
     * format(): a first pass computes the length, a second pass fills a buffer
     * of exactly that length through a write cursor.
     */
    method ToString() returns (s: string)
      ensures s == Format(value, table)
    {
      if IsEmpty(value) || |table| == 0 {
        return "";
      }
      var length := RenderedLength();
      s := RenderInto(length);
    }

    /** The first pass of format(): the length of the rendering. */
    method RenderedLength() returns (length: nat)
      ensures length == |Render(table, Chosen(value, table))|
    {
      ghost var hits := Chosen(value, table);
      length := 0;
      for k := 0 to |table|
        invariant length == |Render(table[..k], hits[..k])|
      {
        assert table[..k + 1][..k] == table[..k];
        assert hits[..k + 1][..k] == hits[..k];
        var (bit, name) := table[k];
        if ContainsAllOf(value, bit) {
          if length != 0 {
            length := length + 1;
          }
          length := length + |name|;
        }
      }
      assert table[..|table|] == table && hits[..|table|] == hits;
    }

    /** The second pass of format(): fill a buffer of the computed length. */
    method RenderInto(length: nat) returns (s: string)
      requires length == |Render(table, Chosen(value, table))|
      ensures s == Render(table, Chosen(value, table))
    {
      ghost var hits := Chosen(value, table);
      var result := new char[length](_ => ' ');
      var p := 0;
      for k := 0 to |table|
        invariant p == |Render(table[..k], hits[..k])| <= length
        invariant result[..p] == Render(table[..k], hits[..k])
      {
        RenderPrefix(table, hits, k + 1);
        p := WriteRow(result, p, k);
      }
      assert table[..|table|] == table && hits[..|table|] == hits;
      s := result[..];
    }

    /** One row of the second pass: write the row's name after a space if it is contained. */
    method WriteRow(result: array<char>, p: nat, k: nat) returns (q: nat)
      requires k < |table|
      requires p == |Render(table[..k], Chosen(value, table)[..k])|
      requires |Render(table[..k + 1], Chosen(value, table)[..k + 1])| <= result.Length
      requires p <= result.Length && result[..p] == Render(table[..k], Chosen(value, table)[..k])
      modifies result
      ensures q == |Render(table[..k + 1], Chosen(value, table)[..k + 1])|
      ensures result[..q] == Render(table[..k + 1], Chosen(value, table)[..k + 1])
    {
      ghost var hits := Chosen(value, table);
      ghost var acc := Render(table[..k], hits[..k]);
      RenderStep(table, hits, k);
      var (bit, name) := table[k];
      var hit := ContainsAllOf(value, bit);
      assert hit == hits[k];
      q := p;
      if hit {
        ghost var sep := if acc == "" then "" else acc + " ";
        if q != 0 {
          result[q] := ' ';
          q := q + 1;
          assert result[..q] == result[..p] + [' '];
        }
        assert result[..q] == sep;
        CopyInto(result, q, name);
        assert result[..q + |name|] == result[..q] + result[q..q + |name|];
        q := q + |name|;
      }
    }
  }

  // ---------------------------------------------------------------------
  // Properties
  // ---------------------------------------------------------------------

  lemma OrCovers(a: Bits, b: Bits)
    ensures (a | b) & a == a && (a | b) & b == b
  {
  }

  lemma OrLeast(a: Bits, b: Bits, c: Bits)
    requires c & a == a && c & b == b
    ensures c & (a | b) == a | b
  {
  }

  lemma AndWithin(a: Bits, b: Bits)
    ensures a & (a & b) == a & b && b & (a & b) == a & b
  {
  }

  lemma AndGreatest(a: Bits, b: Bits, c: Bits)
    requires a & c == c && b & c == c
    ensures (a & b) & c == c
  {
  }

  /** containsAllOf is a partial order whose least upper bound is operator|. */
  lemma UnionIsLeastUpperBound(a: Bits, b: Bits, c: Bits)
    ensures ContainsAllOf(Union(a, b), a) && ContainsAllOf(Union(a, b), b)
    ensures ContainsAllOf(c, a) && ContainsAllOf(c, b) ==> ContainsAllOf(c, Union(a, b))
  {
    OrCovers(a, b);
    if ContainsAllOf(c, a) && ContainsAllOf(c, b) {
      OrLeast(a, b, c);
    }
  }

  /** ... and whose greatest lower bound is operator&. */
  lemma IntersectionIsGreatestLowerBound(a: Bits, b: Bits, c: Bits)
    ensures ContainsAllOf(a, Intersection(a, b)) && ContainsAllOf(b, Intersection(a, b))
    ensures ContainsAllOf(a, c) && ContainsAllOf(b, c) ==> ContainsAllOf(Intersection(a, b), c)
  {
    IntersectionIsLowerBound(a, b);
    if ContainsAllOf(a, c) && ContainsAllOf(b, c) {
      AndGreatest(a, b, c);
    }
  }

  lemma IntersectionIsLowerBound(a: Bits, b: Bits)
    ensures ContainsAllOf(a, Intersection(a, b)) && ContainsAllOf(b, Intersection(a, b))
  {
    AndWithin(a, b);
  }

  /** Two sets containing each other are equal. */
  lemma ContainsAntisymmetric(a: Bits, b: Bits)
    requires ContainsAllOf(a, b) && ContainsAllOf(b, a)
    ensures a == b
  {
    BitsExtensional(a, b);
  }

  /** The empty set is contained in every set and contains only itself. */
  lemma EmptyIsBottom(a: Bits)
    ensures ContainsAllOf(a, 0)
    ensures ContainsAllOf(0, a) <==> IsEmpty(a)
  {
  }

  /** containsAllOf is transitive. */
  lemma ContainsTransitive(a: Bits, b: Bits, c: Bits)
    requires ContainsAllOf(a, b) && ContainsAllOf(b, c)
    ensures ContainsAllOf(a, c)
  {
    AndTransitive(a, b, c);
  }

  lemma AndTransitive(a: Bits, b: Bits, c: Bits)
    requires a & b == b && b & c == c
    ensures a & c == c
  {
  }

  /** Each argument of the initializer-list constructor is contained in the result. */
  lemma {:induction false} UnionAllContainsEach(args: seq<Bits>, j: nat)
    requires j < |args|
    ensures ContainsAllOf(UnionAll(args), args[j])
  {
    var n := |args| - 1;
    var init := args[..n];
    UnionIsLeastUpperBound(UnionAll(init), args[n], 0);
    if j < n {
      UnionAllContainsEach(init, j);
      assert init[j] == args[j];
      ContainsTransitive(UnionAll(args), UnionAll(init), args[j]);
    }
  }
}
