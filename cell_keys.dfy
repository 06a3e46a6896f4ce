/** The `"row-col"` strings the component stores in its set of found cells
    (`getCellKey`), and the proof that, for grid coordinates, distinct cells get
    distinct keys, so the set of keys says exactly which cells were found. */
module CellKeys {
  import opened Grid

  function DigitChar(d: nat): (c: char)
    requires d < 10
    ensures '0' <= c <= '9'
  {
    ('0' as int + d) as char
  }

  /** The decimal rendering of a natural number, most significant digit first, as in a
      template literal `${n}`. */
  function NatToString(n: nat): (s: string)
    ensures |s| > 0
    ensures forall i :: 0 <= i < |s| ==> '0' <= s[i] <= '9'
    ensures (|s| == 1) == (n < 10)
  {
    if n < 10 then [DigitChar(n)] else NatToString(n / 10) + [DigitChar(n % 10)]
  }

  /** The rendering of any integer, with a leading minus sign for a negative one. */
  function IntToString(n: int): string {
    if n < 0 then "-" + NatToString(-n) else NatToString(n)
  }

  /** `getCellKey(row, col)`: the row, a dash and the column. */
  function CellKey(p: Pos): string {
    IntToString(p.row) + "-" + IntToString(p.col)
  }

  /** The keys of a sequence of cells, as the `forEach` of `add` collects them. */
  function KeysOf(cells: seq<Pos>): set<string> {
    set p | p in cells :: CellKey(p)
  }

  /** One more cell adds its key. */
  lemma KeysOfSnoc(cells: seq<Pos>, i: nat)
    requires i < |cells|
    ensures KeysOf(cells[..i + 1]) == KeysOf(cells[..i]) + {CellKey(cells[i])}
  {
    assert cells[..i + 1] == cells[..i] + [cells[i]];
  }

  predicate NonNegative(p: Pos) {
    p.row >= 0 && p.col >= 0
  }

  /** Two numbers with the same decimal rendering are equal. */
  lemma {:induction false} NatToStringInjective(a: nat, b: nat)
    requires NatToString(a) == NatToString(b)
    ensures a == b
  {
    var sa, sb := NatToString(a), NatToString(b);
    if a < 10 && b < 10 {
      assert sa[0] == DigitChar(a) && sb[0] == DigitChar(b);
    } else if a >= 10 && b >= 10 {
      var pa, pb := NatToString(a / 10), NatToString(b / 10);
      assert sa == pa + [DigitChar(a % 10)];
      assert sb == pb + [DigitChar(b % 10)];
      assert |pa| == |pb|;
      assert sa[|pa|] == DigitChar(a % 10) && sb[|pb|] == DigitChar(b % 10);
      assert pa == sa[..|pa|] && pb == sb[..|pb|];
      NatToStringInjective(a / 10, b / 10);
    }
  }

  /** A key splits uniquely at the first dash when its left part holds no dash. */
  lemma SplitAtDash(s1: string, t1: string, s2: string, t2: string)
    requires '-' !in s1 && '-' !in s2
    requires s1 + "-" + t1 == s2 + "-" + t2
    ensures s1 == s2 && t1 == t2
  {
    var x, y := s1 + "-" + t1, s2 + "-" + t2;
    assert x[|s1|] == '-' && y[|s2|] == '-';
    assert forall i :: 0 <= i < |s1| ==> x[i] == s1[i] != '-';
    assert forall i :: 0 <= i < |s2| ==> y[i] == s2[i] != '-';
    assert |s1| == |s2|;
    assert s1 == x[..|s1|] && s2 == y[..|s2|];
    assert t1 == x[|s1| + 1..] && t2 == y[|s2| + 1..];
  }

  /** Distinct grid coordinates have distinct keys. */
  lemma CellKeyInjective(p: Pos, q: Pos)
    requires NonNegative(p) && NonNegative(q)
    requires CellKey(p) == CellKey(q)
    ensures p == q
  {
    var s1, s2 := NatToString(p.row), NatToString(q.row);
    assert forall i :: 0 <= i < |s1| ==> s1[i] != '-';
    assert forall i :: 0 <= i < |s2| ==> s2[i] != '-';
    SplitAtDash(s1, NatToString(p.col), s2, NatToString(q.col));
    NatToStringInjective(p.row, q.row);
    NatToStringInjective(p.col, q.col);
  }

  /** A cell's key is among the keys of a selection exactly when the cell itself is in it. */
  lemma KeysOfMember(cells: seq<Pos>, p: Pos)
    requires NonNegative(p)
    requires forall k :: 0 <= k < |cells| ==> NonNegative(cells[k])
    ensures CellKey(p) in KeysOf(cells) <==> p in cells
  {
    if CellKey(p) in KeysOf(cells) {
      var q :| q in cells && CellKey(q) == CellKey(p);
      CellKeyInjective(p, q);
    }
  }
}
