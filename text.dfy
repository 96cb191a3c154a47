// The text that `Network.get_routing_tables_str` produces: Python's string
// order and `sorted`, `str` of an integer, left-aligned padding, and the
// layout of one routing-table block.

module Text {
  import opened Routing

  /** Python's `<` on str: lexicographic by code point, a proper prefix first. */
  predicate Less(a: string, b: string)
    decreases |a|
  {
    if |a| == 0 then |b| > 0
    else if |b| == 0 then false
    else if a[0] != b[0] then a[0] < b[0]
    else Less(a[1..], b[1..])
  }

  lemma {:induction false} LessIrreflexive(a: string)
    ensures !Less(a, a)
    decreases |a|
  {
    if |a| > 0 {
      LessIrreflexive(a[1..]);
    }
  }

  lemma {:induction false} LessTransitive(a: string, b: string, c: string)
    requires Less(a, b) && Less(b, c)
    ensures Less(a, c)
    decreases |a|
  {
    if |a| > 0 && a[0] == b[0] && b[0] == c[0] {
      LessTransitive(a[1..], b[1..], c[1..]);
    }
  }

  lemma {:induction false} LessTotal(a: string, b: string)
    ensures a == b || Less(a, b) || Less(b, a)
    decreases |a|
  {
    if |a| > 0 && |b| > 0 && a[0] == b[0] {
      LessTotal(a[1..], b[1..]);
      if a[1..] == b[1..] {
        assert a == [a[0]] + a[1..] && b == [b[0]] + b[1..];
      }
    }
  }

  lemma LessAsymmetric(a: string, b: string)
    requires Less(a, b)
    ensures !Less(b, a)
  {
    if Less(b, a) {
      LessTransitive(a, b, a);
      LessIrreflexive(a);
    }
  }

  predicate StrictlySorted(s: seq<string>) {
    forall i, j | 0 <= i < j < |s| :: Less(s[i], s[j])
  }

  predicate IsLeast(m: string, S: set<string>) {
    m in S && forall x | x in S && x != m :: Less(m, x)
  }

  lemma {:induction false} LeastExists(S: set<string>)
    requires S != {}
    ensures exists m :: IsLeast(m, S)
    decreases |S|
  {
    var x :| x in S;
    if S != {x} {
      LeastExists(S - {x});
      var m' :| IsLeast(m', S - {x});
      LessTotal(x, m');
      if Less(x, m') {
        forall y | y in S && y != x ensures Less(x, y) {
          if y != m' {
            LessTransitive(x, m', y);
          }
        }
        assert IsLeast(x, S);
      } else {
        assert IsLeast(m', S);
      }
    } else {
      assert IsLeast(x, S);
    }
  }

  lemma LeastUnique(m1: string, m2: string, S: set<string>)
    requires IsLeast(m1, S) && IsLeast(m2, S)
    ensures m1 == m2
  {
    if m1 != m2 {
      LessAsymmetric(m1, m2);
    }
  }

  /** The smallest name of a non-empty set. */
  function Least(S: set<string>): (m: string)
    requires S != {}
    ensures IsLeast(m, S)
  {
    LeastExists(S);
    assert forall m1, m2 | IsLeast(m1, S) && IsLeast(m2, S) :: m1 == m2 by {
      forall m1, m2 | IsLeast(m1, S) && IsLeast(m2, S) ensures m1 == m2 {
        LeastUnique(m1, m2, S);
      }
    }
    var m :| IsLeast(m, S);
    m
  }

  /** `sorted(S)`: every name of S exactly once, in increasing order. */
  function SortedNames(S: set<string>): (r: seq<string>)
    ensures StrictlySorted(r) && |r| == |S|
    ensures forall x :: x in r <==> x in S
    decreases |S|
  {
    if S == {} then []
    else
      var m := Least(S);
      var rest := SortedNames(S - {m});
      assert forall j | 0 <= j < |rest| :: rest[j] in S - {m} && Less(m, rest[j]);
      [m] + rest
  }

  /** Only one strictly increasing sequence lists a given set, so the order is fully determined. */
  lemma {:induction false} SortedUnique(a: seq<string>, b: seq<string>)
    requires StrictlySorted(a) && StrictlySorted(b)
    requires forall x :: x in a <==> x in b
    ensures a == b
    decreases |a|
  {
    if |a| > 0 {
      assert a[0] in a;
    }
    if |b| > 0 {
      assert b[0] in b;
    }
    if |a| > 0 && |b| > 0 {
      if a[0] != b[0] {
        var i :| 0 <= i < |b| && b[i] == a[0];
        var j :| 0 <= j < |a| && a[j] == b[0];
        assert i > 0 && j > 0;
        LessAsymmetric(b[0], b[i]);
      }
      forall x ensures x in a[1..] <==> x in b[1..] {
        if x in a[1..] {
          InTail(a, b, x);
        }
        if x in b[1..] {
          InTail(b, a, x);
        }
      }
      SortedUnique(a[1..], b[1..]);
      assert a == [a[0]] + a[1..] && b == [b[0]] + b[1..];
    }
  }

  lemma InTail(a: seq<string>, b: seq<string>, x: string)
    requires StrictlySorted(a) && |a| > 0 && |b| > 0 && a[0] == b[0]
    requires forall y :: y in a <==> y in b
    requires x in a[1..]
    ensures x in b[1..]
  {
    var k :| 1 <= k < |a| && a[k] == x;
    LessIrreflexive(a[0]);
    assert x != b[0] && x in a;
    var k' :| 0 <= k' < |b| && b[k'] == x;
    assert b[1..][k' - 1] == x;
  }

  lemma SortedNamesIsSorted(S: set<string>, s: seq<string>)
    requires StrictlySorted(s) && forall x :: x in s <==> x in S
    ensures s == SortedNames(S)
  {
    SortedUnique(s, SortedNames(S));
  }

  // ----------------------------------------------------------- integers

  function DigitChar(d: int): char
    requires 0 <= d < 10
  {
    "0123456789"[d]
  }

  function DigitValue(c: char): int {
    c as int - '0' as int
  }

  predicate IsDigit(c: char) {
    '0' <= c <= '9'
  }

  /** `str(n)` for n >= 0: decimal digits, no leading zero. */
  function NatToString(n: nat): (r: string)
    ensures |r| >= 1 && forall i | 0 <= i < |r| :: IsDigit(r[i])
    decreases n
  {
    if n < 10 then [DigitChar(n)] else NatToString(n / 10) + [DigitChar(n % 10)]
  }

  /** `str(n)`: a minus sign, then the digits of |n|, for negative n. */
  function IntToString(n: int): (r: string)
    ensures |r| >= 1
  {
    if n < 0 then "-" + NatToString(-n) else NatToString(n)
  }

  /** Reading decimal digits back. */
  function ParseDigits(s: string): int
    decreases |s|
  {
    if |s| == 0 then 0 else 10 * ParseDigits(s[..|s| - 1]) + DigitValue(s[|s| - 1])
  }

  function ParseInt(s: string): int {
    if |s| > 0 && s[0] == '-' then -ParseDigits(s[1..]) else ParseDigits(s)
  }

  lemma {:induction false} NatRoundTrip(n: nat)
    ensures ParseDigits(NatToString(n)) == n
    decreases n
  {
    if n >= 10 {
      NatRoundTrip(n / 10);
      var s := NatToString(n);
      assert s[..|s| - 1] == NatToString(n / 10);
    }
  }

  /** `str` on integers is injective: the text can be read back. */
  lemma IntRoundTrip(n: int)
    ensures ParseInt(IntToString(n)) == n
  {
    if n < 0 {
      var digits := NatToString(-n);
      var s := "-" + digits;
      assert s[0] == '-' && s[1..] == digits;
      NatRoundTrip(-n);
    } else {
      assert IsDigit(NatToString(n)[0]);
      NatRoundTrip(n);
    }
  }

  // ------------------------------------------------------------- layout

  function Spaces(k: nat): (r: string)
    ensures |r| == k && forall i | 0 <= i < k :: r[i] == ' '
  {
    if k == 0 then "" else Spaces(k - 1) + " "
  }

  /** `f"{s: <w}"`: s left-aligned, filled with spaces up to width w, never cut. */
  function PadRight(s: string, w: nat): (r: string)
    ensures |r| == if |s| >= w then |s| else w
    ensures r[..|s|] == s && forall i | |s| <= i < |r| :: r[i] == ' '
  {
    if |s| >= w then s else s + Spaces(w - |s|)
  }

  /** The cost column: `inf` for the sentinel, `str(cost)` otherwise. */
  function CostText(c: Cost): (r: string) {
    match c
    case Inf => "inf"
    case Fin(n) => IntToString(n)
  }

  /** The next-hop column: `N/A` when there is none. */
  function HopText(h: Option<string>): string {
    match h
    case None => "N/A"
    case Some(x) => x
  }

  /** "inf" is never the text of a finite cost, and a finite cost's text reads back as that cost. */
  lemma CostTextFaithful(c: Cost)
    ensures CostText(c) == "inf" <==> c.Inf?
    ensures c.Fin? ==> ParseInt(CostText(c)) == c.n
  {
    if c.Fin? {
      IntRoundTrip(c.n);
      var r := CostText(c);
      if c.n < 0 {
        assert r[0] == '-';
      } else {
        assert IsDigit(r[0]);
      }
    }
  }

  function Header(name: string): string {
    "\n======= Router: " + name + " =======\n"
    + "Destination | Next Hop | Cost\n"
    + "---------------------------------\n"
  }

  function Row(dest: string, e: Entry): string {
    PadRight(dest, 12) + "| " + PadRight(HopText(e.nextHop), 9) + "| " + CostText(e.cost) + "\n"
  }

  /** The rows of `dests`, in that order. */
  function Rows(dests: seq<string>, t: Table): string
    requires forall i | 0 <= i < |dests| :: dests[i] in t
  {
    if dests == [] then "" else Rows(dests[..|dests| - 1], t) + Row(dests[|dests| - 1], t[dests[|dests| - 1]])
  }

  /** One router's block: its header, then one row per destination in sorted order. */
  function Block(name: string, t: Table): string {
    Header(name) + Rows(SortedNames(t.Keys), t)
  }

  /** The blocks of `names`, in that order. */
  function Render(names: seq<string>, tables: map<string, Table>): string
    requires forall i | 0 <= i < |names| :: names[i] in tables
  {
    if names == [] then "" else Render(names[..|names| - 1], tables) + Block(names[|names| - 1], tables[names[|names| - 1]])
  }

  /** The whole dump: the block of every router, in name order. */
  function Dump(tables: map<string, Table>): string {
    Render(SortedNames(tables.Keys), tables)
  }

  /** Adding the next destination adds its row at the end. */
  lemma RowsStep(prefix: string, dests: seq<string>, j: int, t: Table)
    requires 0 <= j < |dests| && forall i | 0 <= i < |dests| :: dests[i] in t
    ensures prefix + Rows(dests[..j + 1], t) == prefix + Rows(dests[..j], t) + Row(dests[j], t[dests[j]])
  {
    assert dests[..j + 1][..j] == dests[..j];
  }

  /** Adding the next router adds its block at the end. */
  lemma RenderStep(names: seq<string>, k: int, tables: map<string, Table>, out: string)
    requires 0 <= k < |names| && forall i | 0 <= i < |names| :: names[i] in tables
    requires out == Render(names[..k], tables)
    ensures Render(names[..k + 1], tables) == out + Block(names[k], tables[names[k]])
  {
    assert names[..k + 1][..k] == names[..k];
  }


  /** A row starts with its destination, padded to twelve columns, then the column separator. */
  lemma RowLayout(dest: string, e: Entry)
    ensures var r := Row(dest, e);
            var w := |PadRight(dest, 12)|;
            w >= 12 && r[..|dest|] == dest && r[w..w + 2] == "| "
            && r[|r| - 1] == '\n'
  {
    var p := PadRight(dest, 12);
    var hop := PadRight(HopText(e.nextHop), 9);
    var cost := CostText(e.cost);
    var rest := "| " + hop + "| " + cost + "\n";
    assert Row(dest, e) == p + rest;
    assert rest[..2] == "| " && rest[|rest| - 1] == '\n';
    assert (p + rest)[..|dest|] == p[..|dest|];
  }
}
