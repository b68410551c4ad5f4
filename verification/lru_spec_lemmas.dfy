module LruSpecLemmas {
  import opened Base
  import opened Cids
  import opened LruSpec

  lemma {:induction false} TotalAppend(s: seq<Block>, t: seq<Block>)
    ensures Total(s + t) == Total(s) + Total(t)
  {
    if s == [] {
      assert s + t == t;
    } else {
      assert (s + t)[1..] == s[1..] + t;
      TotalAppend(s[1..], t);
    }
  }

  lemma TotalRemoveAt(s: seq<Block>, i: nat)
    requires i < |s|
    ensures Total(s) == Total(RemoveAt(s, i)) + |s[i].data|
    ensures Total(ToFront(s, i)) == Total(s)
  {
    assert s == s[..i] + ([s[i]] + s[i + 1..]);
    TotalAppend(s[..i], [s[i]] + s[i + 1..]);
    TotalAppend(s[..i], s[i + 1..]);
    assert ([s[i]] + s[i + 1..])[1..] == s[i + 1..];
    assert ToFront(s, i)[1..] == RemoveAt(s, i);
  }

  lemma SubWraps(total: nat, n: nat)
    requires n <= total
    ensures SubU64(total % TWO_64, n) == (total - n) % TWO_64
  {
    var q := total / TWO_64;
    assert total - n == q * TWO_64 + (total % TWO_64 - n);
    ModShift(total % TWO_64 - n, q);
  }

  lemma AddWraps(total: nat, n: nat)
    ensures AddU64(total % TWO_64, n) == (total + n) % TWO_64
  {
    var q := total / TWO_64;
    assert total + n == q * TWO_64 + (total % TWO_64 + n);
    ModShift(total % TWO_64 + n, q);
  }

  lemma ModShift(x: int, q: nat)
    ensures (q * TWO_64 + x) % TWO_64 == x % TWO_64
  {
    if q > 0 {
      ModShift(x, q - 1);
      assert q * TWO_64 + x == (q - 1) * TWO_64 + x + TWO_64;
    }
  }
}
