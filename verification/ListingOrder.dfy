/** The order of a directory listing in Dimensionals/path_validation.py: directories
    first, then by lower-case name, and entries that tie in the order they were found. */
module ListingOrder {
  datatype Child = Child(name: string, isDir: bool, size: nat, modified: int)

  /** Lexicographic order of strings. */
  predicate Below(a: string, b: string) {
    a == "" || (b != "" && (a[0] < b[0] || (a[0] == b[0] && Below(a[1..], b[1..]))))
  }

  type Casing = string -> string

  /** `(c["type"] != "directory", c["name"].lower())`, compared. */
  predicate Precedes(lower: Casing, c: Child, d: Child) {
    if c.isDir != d.isDir then c.isDir else Below(lower(c.name), lower(d.name))
  }

  predicate SameKey(lower: Casing, c: Child, d: Child) {
    c.isDir == d.isDir && lower(c.name) == lower(d.name)
  }

  function Insert(lower: Casing, c: Child, sorted: seq<Child>): seq<Child> {
    if sorted == [] || Precedes(lower, c, sorted[0]) then [c] + sorted
    else [sorted[0]] + Insert(lower, c, sorted[1..])
  }

  function Sort(lower: Casing, children: seq<Child>): seq<Child> {
    if children == [] then [] else Insert(lower, children[0], Sort(lower, children[1..]))
  }

  ghost predicate IsSorted(lower: Casing, children: seq<Child>) {
    forall i, j :: 0 <= i < j < |children| ==> Precedes(lower, children[i], children[j])
  }

  /** The children with the key of `k`, in order. */
  function WithKey(lower: Casing, k: Child, children: seq<Child>): seq<Child> {
    if children == [] then []
    else (if SameKey(lower, k, children[0]) then [children[0]] else []) + WithKey(lower, k, children[1..])
  }

  /** One string is below another exactly when it begins it, or is smaller where they first differ. */
  lemma {:induction false} BelowIsLexicographic(a: string, b: string)
    ensures Below(a, b) <==>
      a <= b || exists k :: 0 <= k < |a| && k < |b| && a[..k] == b[..k] && a[k] < b[k]
    decreases |a|
  {
    if a != "" && b != "" {
      BelowIsLexicographic(a[1..], b[1..]);
      if a[0] == b[0] {
        SameHead(a, b);
      } else if a[0] < b[0] {
        assert a[..0] == b[..0];
      } else {
        assert forall k :: 0 < k < |a| && k < |b| ==> a[..k][0] == a[0] && b[..k][0] == b[0];
      }
    }
  }

  lemma {:induction false} SameHead(a: string, b: string)
    requires a != "" && b != "" && a[0] == b[0]
    ensures a <= b <==> a[1..] <= b[1..]
    ensures (exists k :: 0 <= k < |a| && k < |b| && a[..k] == b[..k] && a[k] < b[k]) <==>
      exists k :: 0 <= k < |a[1..]| && k < |b[1..]| && a[1..][..k] == b[1..][..k] && a[1..][k] < b[1..][k]
  {
    assert a == [a[0]] + a[1..] && b == [b[0]] + b[1..];
    if k :| 0 <= k < |a| && k < |b| && a[..k] == b[..k] && a[k] < b[k] {
      assert k > 0 && a[1..][..k - 1] == a[..k][1..] && b[1..][..k - 1] == b[..k][1..];
    }
    if k :| 0 <= k < |a[1..]| && k < |b[1..]| && a[1..][..k] == b[1..][..k] && a[1..][k] < b[1..][k] {
      assert a[..k + 1] == [a[0]] + a[1..][..k] && b[..k + 1] == [b[0]] + b[1..][..k];
      assert a[k + 1] < b[k + 1];
    }
  }

  /** Directories come first, and within a kind the lower-case names decide. */
  lemma {:induction false} DirectoriesFirst(lower: Casing, children: seq<Child>)
    ensures var r := Sort(lower, children);
      forall i, j :: 0 <= i < j < |r| ==>
        (r[j].isDir ==> r[i].isDir) && (r[i].isDir == r[j].isDir ==> Below(lower(r[i].name), lower(r[j].name)))
  {
    SortIsSorted(lower, children);
  }

  lemma {:induction false} BelowIsTotal(a: string, b: string)
    ensures Below(a, b) || Below(b, a)
    ensures Below(a, b) && Below(b, a) ==> a == b
    decreases |a|
  {
    if a != "" && b != "" {
      BelowIsTotal(a[1..], b[1..]);
      if a[0] == b[0] && a[1..] == b[1..] { assert a == [a[0]] + a[1..] && b == [b[0]] + b[1..]; }
    }
  }

  lemma {:induction false} BelowIsTransitive(a: string, b: string, c: string)
    requires Below(a, b) && Below(b, c)
    ensures Below(a, c)
    decreases |a|
  {
    if a != "" && a[0] == b[0] == c[0] { BelowIsTransitive(a[1..], b[1..], c[1..]); }
  }

  /** Two children tie exactly when neither has to come first. */
  lemma {:induction false} TiesAre(lower: Casing, c: Child, d: Child)
    ensures SameKey(lower, c, d) <==> Precedes(lower, c, d) && Precedes(lower, d, c)
  {
    BelowIsTotal(lower(c.name), lower(d.name));
  }

  lemma {:induction false} InsertKeeps(lower: Casing, c: Child, sorted: seq<Child>)
    requires IsSorted(lower, sorted)
    ensures IsSorted(lower, Insert(lower, c, sorted))
    ensures forall d :: d in Insert(lower, c, sorted) <==> d == c || d in sorted
    ensures multiset(Insert(lower, c, sorted)) == multiset([c]) + multiset(sorted)
    decreases |sorted|
  {
    if sorted == [] {
    } else if Precedes(lower, c, sorted[0]) {
      forall j | 0 <= j < |sorted| ensures Precedes(lower, c, sorted[j]) {
        if j > 0 { PrecedesChains(lower, c, sorted[0], sorted[j]); }
      }
    } else {
      var rest := Insert(lower, c, sorted[1..]);
      InsertKeeps(lower, c, sorted[1..]);
      BelowIsTotal(lower(c.name), lower(sorted[0].name));
      forall j | 0 <= j < |rest| ensures Precedes(lower, sorted[0], rest[j]) {
        assert rest[j] in rest;
        if rest[j] != c {
          var i :| 0 <= i < |sorted[1..]| && sorted[1..][i] == rest[j];
          assert sorted[i + 1] == rest[j];
        }
      }
      assert sorted == [sorted[0]] + sorted[1..];
    }
  }

  lemma {:induction false} PrecedesChains(lower: Casing, c: Child, d: Child, e: Child)
    requires Precedes(lower, c, d) && Precedes(lower, d, e)
    ensures Precedes(lower, c, e)
  {
    if c.isDir == d.isDir == e.isDir { BelowIsTransitive(lower(c.name), lower(d.name), lower(e.name)); }
  }

  lemma {:induction false} InsertGoesFirst(lower: Casing, c: Child, sorted: seq<Child>, k: Child)
    ensures WithKey(lower, k, Insert(lower, c, sorted)) == WithKey(lower, k, [c]) + WithKey(lower, k, sorted)
    decreases |sorted|
  {
    assert [c][1..] == [];
    if sorted == [] || Precedes(lower, c, sorted[0]) {
      assert ([c] + sorted)[1..] == sorted;
    } else {
      var rest := Insert(lower, c, sorted[1..]);
      InsertGoesFirst(lower, c, sorted[1..], k);
      assert ([sorted[0]] + rest)[1..] == rest;
      BelowIsTotal(lower(c.name), lower(c.name));
    }
  }

  /** A listing is sorted, holds what was found as often as it was found, and keeps the
      order of children that tie. */
  lemma {:induction false} SortIsSorted(lower: Casing, children: seq<Child>)
    ensures IsSorted(lower, Sort(lower, children))
    ensures multiset(Sort(lower, children)) == multiset(children)
    ensures forall k :: WithKey(lower, k, Sort(lower, children)) == WithKey(lower, k, children)
    decreases |children|
  {
    if children != [] {
      SortIsSorted(lower, children[1..]);
      InsertKeeps(lower, children[0], Sort(lower, children[1..]));
      assert children == [children[0]] + children[1..];
      TiesGoFirst(lower, children[0], children[1..]);
    }
  }

  lemma {:induction false} TiesGoFirst(lower: Casing, c: Child, rest: seq<Child>)
    requires forall k :: WithKey(lower, k, Sort(lower, rest)) == WithKey(lower, k, rest)
    ensures forall k :: WithKey(lower, k, Insert(lower, c, Sort(lower, rest))) == WithKey(lower, k, [c] + rest)
  {
    forall k ensures WithKey(lower, k, Insert(lower, c, Sort(lower, rest))) == WithKey(lower, k, [c] + rest) {
      InsertGoesFirst(lower, c, Sort(lower, rest), k);
      assert ([c] + rest)[1..] == rest && [c][1..] == [];
    }
  }
}
