/** Entity identifiers, as both World implementations build them: a namespace
    prefix followed by the decimal form of a per-World counter that every
    prefix shares (`prefix + String(this.id++)`). */
module Ids {

  /** The two id namespaces a caller may ask for: server- and client-side entities. */
  datatype Prefix = Srv | Cln {
    function Text(): (s: string)
      ensures |s| == 3
    {
      match this
      case Srv => "srv"
      case Cln => "cln"
    }
  }

  function Digit(d: nat): (c: char)
    requires d < 10
    ensures '0' <= c <= '9'
  {
    (48 + d) as char
  }

  /** `String(n)` for a non-negative integer: its decimal digits, most significant first. */
  function Decimal(n: nat): (s: string)
    ensures 1 <= |s|
    ensures |s| == 1 <==> n < 10
    ensures forall i :: 0 <= i < |s| ==> '0' <= s[i] <= '9'
    ensures 1 < |s| ==> s[0] != '0'
  {
    if n < 10 then [Digit(n)] else Decimal(n / 10) + [Digit(n % 10)]
  }

  /** Different counters never print the same. */
  lemma {:induction false} DecimalInjective(n: nat, m: nat)
    requires Decimal(n) == Decimal(m)
    ensures n == m
  {
    if 10 <= n {
      var s := Decimal(n);
      assert 10 <= m;
      assert Decimal(n / 10) == s[..|s| - 1] == Decimal(m / 10);
      assert Digit(n % 10) == s[|s| - 1] == Digit(m % 10);
      DecimalInjective(n / 10, m / 10);
    } else {
      assert m < 10;
      assert Digit(n) == Decimal(n)[0] == Digit(m);
    }
  }

  /** The id of the entity created when the counter stood at `n`. */
  function IdOf(p: Prefix, n: nat): string
  {
    p.Text() + Decimal(n)
  }

  /** An id determines both its prefix and the counter value it was made from. */
  lemma IdOfInjective(p: Prefix, n: nat, q: Prefix, m: nat)
    requires IdOf(p, n) == IdOf(q, m)
    ensures p == q && n == m
  {
    var s := IdOf(p, n);
    assert p.Text() == s[..3] == q.Text();
    assert Decimal(n) == s[3..] == Decimal(m);
    DecimalInjective(n, m);
  }

  /** `s` is the id handed out when the counter stood at `n`, under either prefix. */
  predicate IsIdFor(s: string, n: nat)
  {
    s == IdOf(Srv, n) || s == IdOf(Cln, n)
  }

  /** No element occurs twice. */
  predicate Distinct(s: seq<string>)
  {
    forall i, j :: 0 <= i < j < |s| ==> s[i] != s[j]
  }

  /** When the k-th issued id was made from counter value k, the id made from
      any later counter value, under either prefix, is not among them. */
  lemma NextIdFresh(ids: seq<string>, p: Prefix, n: nat)
    requires forall i :: 0 <= i < |ids| ==> IsIdFor(ids[i], i)
    requires |ids| <= n
    ensures IdOf(p, n) !in ids
  {
    forall i | 0 <= i < |ids|
      ensures ids[i] != IdOf(p, n)
    {
      if ids[i] == IdOf(p, n) {
        if ids[i] == IdOf(Srv, i) {
          IdOfInjective(Srv, i, p, n);
        } else {
          IdOfInjective(Cln, i, p, n);
        }
      }
    }
  }

  /** Ids from a shared counter never repeat, whatever prefixes were asked for. */
  lemma IssuedIdsDistinct(ids: seq<string>)
    requires forall i :: 0 <= i < |ids| ==> IsIdFor(ids[i], i)
    ensures Distinct(ids)
  {
    forall i, j | 0 <= i < j < |ids|
      ensures ids[i] != ids[j]
    {
      NextIdFresh(ids[..i + 1], if ids[j] == IdOf(Srv, j) then Srv else Cln, j);
      assert ids[i] in ids[..i + 1];
    }
  }

  /** The sequence of ids of the World test: srv0, srv1, cln2, ... from one counter. */
  lemma IdTable()
    ensures IdOf(Srv, 0) == "srv0" && IdOf(Srv, 1) == "srv1" && IdOf(Cln, 2) == "cln2"
    ensures IdOf(Cln, 7) == "cln7" && IdOf(Cln, 12) == "cln12"
  {
  }
}
