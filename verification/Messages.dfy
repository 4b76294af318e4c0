/** The bytes a transfer signs, and signature verification as far as it is decided before the curve library. */
module Messages {
  import opened Decimals

  function CanonicalMessage(sender: string, receiver: string, amount: Decimal, nonce: int): string {
    sender + [':'] + (receiver + [':'] + (FormatAmount(amount) + [':'] + IntText(nonce)))
  }

  predicate ColonFree(s: string) { ':' !in s }

  /** The text before the first colon is determined by the whole. */
  lemma {:induction false} SplitAtColon(a: string, x: string, b: string, y: string)
    requires ColonFree(a) && ColonFree(b)
    requires a + [':'] + x == b + [':'] + y
    ensures a == b && x == y
  {
    var s, t := a + [':'] + x, b + [':'] + y;
    assert s[0] == t[0];
    assert a == "" ==> s[0] == ':';
    assert b == "" ==> t[0] == ':';
    if a == "" {
      assert b == "";
      assert s[1..] == x && t[1..] == y;
    } else {
      assert s[1..] == a[1..] + [':'] + x;
      assert t[1..] == b[1..] + [':'] + y;
      SplitAtColon(a[1..], x, b[1..], y);
      assert a == [s[0]] + a[1..] && b == [t[0]] + b[1..];
    }
  }

  /** With colon-free wallet ids, one message stands for one sender, receiver, signed amount value and nonce. */
  lemma MessageDeterminesTransfer(s: string, r: string, a: Decimal, n: int,
                                  s': string, r': string, a': Decimal, n': int)
    requires ColonFree(s) && ColonFree(r) && ColonFree(s') && ColonFree(r')
    ensures CanonicalMessage(s, r, a, n) == CanonicalMessage(s', r', a', n')
       <==> s == s' && r == r' && n == n' && a.Value() == a'.Value() && (a.coef == 0 ==> a.neg == a'.neg)
  {
    var f, f' := FormatAmount(a), FormatAmount(a');
    FormatCanonical(a, a');
    if CanonicalMessage(s, r, a, n) == CanonicalMessage(s', r', a', n') {
      SplitAtColon(s, r + [':'] + (f + [':'] + IntText(n)), s', r' + [':'] + (f' + [':'] + IntText(n')));
      SplitAtColon(r, f + [':'] + IntText(n), r', f' + [':'] + IntText(n'));
      FormatHasNoColon(a);
      FormatHasNoColon(a');
      SplitAtColon(f, IntText(n), f', IntText(n'));
      IntTextInjective(n, n');
    }
  }

  /** Without it the message is ambiguous: a colon can move from one id to the other. */
  lemma ColonsMakeMessagesAmbiguous(s: string, t: string, r: string, a: Decimal, n: int)
    ensures CanonicalMessage(s + [':'] + t, r, a, n) == CanonicalMessage(s, t + [':'] + r, a, n)
  {
    var rest := FormatAmount(a) + [':'] + IntText(n);
    assert (s + [':'] + t) + [':'] + (r + [':'] + rest) == s + [':'] + ((t + [':'] + r) + [':'] + rest);
  }

  lemma FormatVectors()
    ensures FormatAmount(Decimal(false, 5, 0)) == "5"
    ensures FormatAmount(Decimal(false, 150, -2)) == "1.5"
  {
    TrimNormal(Decimal(false, 5, 0));
    FormatNormal(Decimal(false, 150, -2));
    OneAndAHalf();
  }

  lemma OneAndAHalf()
    ensures Decimal(false, 150, -2).Normal() == Decimal(false, 15, -1)
    ensures FormatAmount(Decimal(false, 15, -1)) == "1.5"
  {
    TrimNormal(Decimal(false, 15, -1));
    assert Digits(15) == "15";
    assert PadLeft("15", 2) == "15";
    assert InsertPoint("15", 1) == "1.5";
    assert Decimal(false, 150, -2).Normal() == Decimal(false, 15, -1).Normal();
  }

  /** The order of the fields and the plain notation, on the repository's own test vectors. */
  lemma MessageVectors()
    ensures CanonicalMessage("w1", "w2", Decimal(false, 5, 0), 3) == "w1:w2:5:3"
    ensures CanonicalMessage("w1", "w2", Decimal(false, 150, -2), 1) == "w1:w2:1.5:1"
  {
    FormatVectors();
    assert IntText(3) == "3" && IntText(1) == "1";
    assert "w1" + [':'] + ("w2" + [':'] + ("5" + [':'] + "3")) == "w1:w2:5:3";
    assert "w1" + [':'] + ("w2" + [':'] + ("1.5" + [':'] + "1")) == "w1:w2:1.5:1";
  }
}
