/** Text as rows, as a regular expression anchored with `^` under `re.M` sees it:
    a row ends at "\n" and nowhere else. */
module TextRows {
  import opened Wrappers

  /** `text.split("\n")`; the last row is not closed by "\n". */
  function Split(t: string): (rows: seq<string>)
    ensures rows != []
  {
    if t == "" then [""]
    else
      var rest := Split(t[1..]);
      if t[0] == '\n' then [""] + rest else [[t[0]] + rest[0]] + rest[1..]
  }

  /** The text of rows each closed by "\n". */
  function Closed(rows: seq<string>): string {
    if rows == [] then "" else rows[0] + "\n" + Closed(rows[1..])
  }

  predicate AreRows(rows: seq<string>) {
    forall row :: row in rows ==> '\n' !in row
  }

  /** Where row `i` begins. */
  function Start(rows: seq<string>, i: nat): nat
    requires i <= |rows|
  {
    |Closed(rows[..i])|
  }

  lemma {:induction false} SplitGivesRows(t: string)
    ensures AreRows(Split(t))
    decreases |t|
  {
    if t != "" {
      var rest := Split(t[1..]);
      SplitGivesRows(t[1..]);
      assert rest[0] in rest;
      forall row | row in Split(t) ensures '\n' !in row {
        if t[0] == '\n' {
          assert row == "" || row in rest;
        } else {
          assert row == [t[0]] + rest[0] || row in rest[1..];
        }
      }
    }
  }

  lemma {:induction false} SplitRow(row: string, b: string)
    requires '\n' !in row
    ensures Split(row + "\n" + b) == [row] + Split(b)
    decreases |row|
  {
    var t := row + "\n" + b;
    if row == "" {
      assert t[1..] == b;
    } else {
      assert t[1..] == row[1..] + "\n" + b;
      SplitRow(row[1..], b);
      assert [row[0]] + row[1..] == row;
    }
  }

  /** Characters before a text without a break lengthen its first row. */
  lemma {:induction false} SplitInRow(q: string, x: string)
    requires '\n' !in q
    ensures Split(q + x) == [q + Split(x)[0]] + Split(x)[1..]
    decreases |q|
  {
    if q == "" {
      assert q + x == x && q + Split(x)[0] == Split(x)[0];
    } else {
      SplitInRow(q[1..], x);
      assert (q + x)[1..] == q[1..] + x && (q + x)[0] == q[0];
      assert [q[0]] + (q[1..] + Split(x)[0]) == q + Split(x)[0];
    }
  }

  /** Closed rows before a text are its first rows. */
  lemma {:induction false} SplitAfter(rows: seq<string>, b: string)
    requires AreRows(rows)
    ensures Split(Closed(rows) + b) == rows + Split(b)
    decreases |rows|
  {
    if rows == [] {
      assert Closed(rows) + b == b;
    } else {
      SplitAfter(rows[1..], b);
      assert Closed(rows) + b == rows[0] + "\n" + (Closed(rows[1..]) + b);
      SplitRow(rows[0], Closed(rows[1..]) + b);
      assert [rows[0]] + (rows[1..] + Split(b)) == rows + Split(b);
    }
  }

  lemma {:induction false} ClosedConcat(a: seq<string>, b: seq<string>)
    ensures Closed(a + b) == Closed(a) + Closed(b)
    decreases |a|
  {
    if a == [] {
      assert a + b == b;
    } else {
      ClosedConcat(a[1..], b);
      assert (a + b)[1..] == a[1..] + b;
    }
  }

  /** Cutting a text where row `i` begins cuts its rows there. */
  lemma {:induction false} CutAtRow(t: string, i: nat)
    requires i < |Split(t)|
    ensures Start(Split(t), i) <= |t| && t[..Start(Split(t), i)] == Closed(Split(t)[..i])
    ensures Split(t[Start(Split(t), i)..]) == Split(t)[i..]
  {
    var rest := RowsThenRest(t, i);
    assert t[Start(Split(t), i)..] == rest;
  }

  lemma {:induction false} RowsThenRest(t: string, i: nat) returns (rest: string)
    requires i < |Split(t)|
    ensures t == Closed(Split(t)[..i]) + rest && Split(rest) == Split(t)[i..]
    decreases i
  {
    if i == 0 {
      rest := t;
    } else {
      var row, u := FirstRowOf(t);
      rest := RowsThenRest(u, i - 1);
      assert Split(t)[..i] == [row] + Split(u)[..i - 1];
      Associate(row, Closed(Split(u)[..i - 1]), rest);
    }
  }

  lemma {:induction false} Associate(row: string, a: string, b: string)
    ensures row + "\n" + (a + b) == row + "\n" + a + b
  {
  }

  lemma {:induction false} FirstRowOf(t: string) returns (row: string, u: string)
    requires |Split(t)| > 1
    ensures t == row + "\n" + u && Split(t) == [row] + Split(u)
    decreases |t|
  {
    if t[0] == '\n' {
      row, u := "", t[1..];
    } else {
      row, u := FirstRowOf(t[1..]);
      row := [t[0]] + row;
    }
  }

  /** A text that is empty or ends in "\n" is a run of closed rows. */
  lemma {:induction false} WholeIsClosed(t: string) returns (rows: seq<string>)
    requires t == "" || t[|t| - 1] == '\n'
    ensures t == Closed(rows) && AreRows(rows)
    decreases |t|
  {
    rows := Split(t)[..|Split(t)| - 1];
    SplitGivesRows(t);
    LastRow(t);
    CutAtRow(t, |Split(t)| - 1);
    var rest := t[Start(Split(t), |Split(t)| - 1)..];
    LastRow(rest);
  }

  lemma {:induction false} LastRow(t: string)
    ensures (t == "" || t[|t| - 1] == '\n') <==> Split(t)[|Split(t)| - 1] == ""
    ensures |Split(t)| == 1 ==> Split(t)[0] == t
    decreases |t|
  {
    if t != "" { LastRow(t[1..]); }
  }

  // ---------------------------------------------------------------- searching rows

  function First(p: string -> bool, rows: seq<string>): (r: Option<nat>)
    ensures r.Some? ==> r.value < |rows|
  {
    if rows == [] then None
    else if p(rows[0]) then Some(0)
    else
      var rest := First(p, rows[1..]);
      if rest.None? then None else Some(rest.value + 1)
  }

  ghost predicate NoneOf(p: string -> bool, rows: seq<string>) {
    forall row :: row in rows ==> !p(row)
  }

  lemma {:induction false} FirstIsFirst(p: string -> bool, rows: seq<string>)
    ensures var r := First(p, rows);
      if r.Some? then p(rows[r.value]) && NoneOf(p, rows[..r.value]) else NoneOf(p, rows)
    decreases |rows|
  {
    if rows != [] && !p(rows[0]) {
      FirstIsFirst(p, rows[1..]);
      var r := First(p, rows[1..]);
      if r.Some? { assert rows[..r.value + 1] == [rows[0]] + rows[1..][..r.value]; }
    }
  }

  lemma {:induction false} FirstSkips(p: string -> bool, a: seq<string>, b: seq<string>)
    requires NoneOf(p, a)
    ensures First(p, a + b) == match First(p, b) case None => None case Some(k) => Some(|a| + k)
    decreases |a|
  {
    if a == [] {
      assert a + b == b;
    } else {
      assert (a + b)[1..] == a[1..] + b;
      FirstSkips(p, a[1..], b);
    }
  }

  lemma {:induction false} FirstStays(p: string -> bool, a: seq<string>, b: seq<string>)
    requires First(p, a).Some?
    ensures First(p, a + b) == First(p, a)
    decreases |a|
  {
    assert (a + b)[1..] == a[1..] + b;
    if !p(a[0]) { FirstStays(p, a[1..], b); }
  }

  /** The first row passing the test. */
  function FirstRow(p: string -> bool, rows: seq<string>): Option<string> {
    match First(p, rows)
    case None => None
    case Some(i) => Some(rows[i])
  }

  /** Rows that fail the test can be put in or taken out without changing the row found. */
  lemma {:induction false} RowAcross(p: string -> bool, a: seq<string>, mid: seq<string>, b: seq<string>)
    requires NoneOf(p, mid)
    ensures FirstRow(p, a + mid + b) == FirstRow(p, a + b)
  {
    assert a + mid + b == a + (mid + b);
    if First(p, a).Some? {
      FirstStays(p, a, mid + b);
      FirstStays(p, a, b);
    } else {
      FirstIsFirst(p, a);
      FirstSkips(p, a, mid + b);
      FirstSkips(p, a, b);
      FirstSkips(p, mid, b);
    }
  }

  /** Taking out rows that do not hold the first one passing the test leaves it the first. */
  lemma {:induction false} RowOutside(p: string -> bool, rows: seq<string>, i: nat, j: nat)
    requires i <= j < |rows| && First(p, rows).Some?
    requires First(p, rows).value < i || j < First(p, rows).value
    ensures FirstRow(p, rows[..i] + rows[j + 1..]) == FirstRow(p, rows)
  {
    var u, mid := First(p, rows).value, rows[i..j + 1];
    FirstIsFirst(p, rows);
    if u < i {
      FirstOfPrefix(p, rows, i);
      FirstStays(p, rows[..i], rows[j + 1..]);
    } else {
      NoneWithin(p, rows, u, i, j);
      RowAcross(p, rows[..i], mid, rows[j + 1..]);
      assert rows[..i] + mid + rows[j + 1..] == rows;
    }
  }

  lemma {:induction false} NoneWithin(p: string -> bool, rows: seq<string>, u: nat, i: nat, j: nat)
    requires i <= j < u <= |rows| && NoneOf(p, rows[..u])
    ensures NoneOf(p, rows[i..j + 1])
  {
    forall row | row in rows[i..j + 1] ensures row in rows[..u] {
      var k :| 0 <= k < j + 1 - i && rows[i..j + 1][k] == row;
      assert rows[..u][i + k] == row;
    }
  }

  lemma {:induction false} FirstOfPrefix(p: string -> bool, rows: seq<string>, i: nat)
    requires i <= |rows| && First(p, rows).Some? && First(p, rows).value < i
    ensures First(p, rows[..i]) == First(p, rows)
  {
    var u := First(p, rows).value;
    FirstIsFirst(p, rows);
    FirstIsFirst(p, rows[..i]);
    assert rows[..i][u] == rows[u];
    FirstStays(p, rows[..i], rows[i..]);
    assert rows[..i] + rows[i..] == rows;
  }
}
