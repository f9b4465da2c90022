/** Decimal rendering of naturals, as Rust's `{}` formats an unsigned integer. */
module Text {

  function DigitChar(d: nat): (c: char)
    requires d < 10
    ensures '0' <= c <= '9'
  {
    ['0', '1', '2', '3', '4', '5', '6', '7', '8', '9'][d]
  }

  /** The decimal digits of `n`, most significant first, without leading zeros. */
  function NatToString(n: nat): (s: string)
    ensures 1 <= |s|
    ensures forall i | 0 <= i < |s| :: '0' <= s[i] <= '9'
    ensures n < 10 <==> |s| == 1
  {
    if n < 10 then [DigitChar(n)] else NatToString(n / 10) + [DigitChar(n % 10)]
  }

  lemma DigitCharInjective(a: nat, b: nat)
    requires a < 10 && b < 10 && DigitChar(a) == DigitChar(b)
    ensures a == b
  {
  }

  /** Distinct naturals render to distinct strings. */
  lemma {:induction false} NatToStringInjective(a: nat, b: nat)
    requires NatToString(a) == NatToString(b)
    ensures a == b
  {
    var s := NatToString(a);
    if a < 10 {
      DigitCharInjective(a, b);
    } else {
      assert b >= 10;
      var sa, sb := NatToString(a / 10), NatToString(b / 10);
      assert s == sa + [DigitChar(a % 10)] == sb + [DigitChar(b % 10)];
      assert sa == s[..|s| - 1] == sb;
      DigitCharInjective(a % 10, b % 10);
      NatToStringInjective(a / 10, b / 10);
    }
  }

  // ---------------------------------------------------------------------
  // Nesting of parentheses

  /** How many more opening than closing parentheses `s` holds. */
  function Depth(s: string): int
  {
    multiset(s)['('] as int - multiset(s)[')'] as int
  }

  /**
   * The parentheses of `s` nest properly: no prefix closes more than it
   * opened, and the whole string closes all it opened.
   */
  predicate Balanced(s: string)
  {
    Depth(s) == 0 && forall k | 0 <= k <= |s| :: Depth(s[..k]) >= 0
  }

  lemma DepthConcat(a: string, b: string)
    ensures Depth(a + b) == Depth(a) + Depth(b)
  {
    assert multiset(a + b) == multiset(a) + multiset(b);
  }

  lemma BalancedConcat(a: string, b: string)
    requires Balanced(a) && Balanced(b)
    ensures Balanced(a + b)
  {
    DepthConcat(a, b);
    forall k | 0 <= k <= |a + b|
      ensures Depth((a + b)[..k]) >= 0
    {
      if k <= |a| {
        assert (a + b)[..k] == a[..k];
      } else {
        assert (a + b)[..k] == a + b[..k - |a|];
        DepthConcat(a, b[..k - |a|]);
      }
    }
  }

  /** Wrapping in a pair of parentheses keeps the nesting. */
  lemma BalancedBracketed(a: string)
    requires Balanced(a)
    ensures Balanced("(" + a + ")")
  {
    var s := "(" + a + ")";
    assert Depth("(") == 1 && Depth(")") == -1;
    DepthConcat("(", a);
    DepthConcat("(" + a, ")");
    forall k | 0 <= k <= |s|
      ensures Depth(s[..k]) >= 0
    {
      if k == |s| {
        assert s[..k] == s;
      } else if 1 <= k {
        assert s[..k] == "(" + a[..k - 1];
        DepthConcat("(", a[..k - 1]);
      } else {
        assert s[..k] == "";
      }
    }
  }

  /** A string without parentheses is balanced. */
  lemma BalancedPlain(a: string)
    requires '(' !in a && ')' !in a
    ensures Balanced(a)
  {
    forall k | 0 <= k <= |a|
      ensures Depth(a[..k]) == 0
    {
      assert '(' !in a[..k] && ')' !in a[..k];
    }
    assert a[..|a|] == a;
  }

  /** `")("` holds as many opening as closing parentheses, yet is not balanced. */
  lemma ClosingFirstUnbalanced()
    ensures Depth(")(") == 0 && !Balanced(")(")
  {
    assert ")("[..1] == ")";
    assert Depth(")") == -1;
  }

  lemma NatToStringBalanced(n: nat)
    ensures Balanced(NatToString(n))
  {
    BalancedPlain(NatToString(n));
  }
}
