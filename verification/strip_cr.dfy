/**
  `strip_cr` of at.c: deletes every carriage return from a NUL-terminated
  string, in place, keeping all other characters in order.
 */
module CarriageReturn {
  import opened CStrings

  const CR: char := '\r'

  /** The text with every carriage return removed. */
  function StripCr(s: string): (r: string)
    ensures CR !in r
    ensures |r| <= |s|
  {
    if |s| == 0 then [] else Kept(s[0]) + StripCr(s[1..])
  }

  /** What `strip_cr` writes for one character it reads: nothing for CR, the character otherwise. */
  function Kept(c: char): string
  {
    if c == CR then [] else [c]
  }

  /**
    Contents are kept: every character other than CR occurs as often as before,
    and the length drops by the number of carriage returns.
   */
  lemma {:induction false} StripCrCounts(s: string)
    ensures |StripCr(s)| == |s| - multiset(s)[CR]
    ensures forall c :: c != CR ==> multiset(StripCr(s))[c] == multiset(s)[c]
  {
    if |s| > 0 {
      assert s == [s[0]] + s[1..];
      StripCrCounts(s[1..]);
    }
  }

  /**
    Order is kept: removing carriage returns from a concatenation is removing them
    from each part. With `StripCr([c])` being `[]` for CR and `[c]` otherwise, this
    pins the result down as the order-preserving filter.
   */
  lemma {:induction false} StripCrDistributes(a: string, b: string)
    ensures StripCr(a + b) == StripCr(a) + StripCr(b)
  {
    if |a| == 0 {
      assert a + b == b;
    } else {
      var ab := a + b;
      assert ab[0] == a[0] && ab[1..] == a[1..] + b;
      StripCrDistributes(a[1..], b);
      assert StripCr(ab) == Kept(a[0]) + StripCr(ab[1..]);
      assert StripCr(a) == Kept(a[0]) + StripCr(a[1..]);
    }
  }

  /** A single character is dropped exactly when it is a carriage return. */
  lemma StripCrSingle(c: char)
    ensures StripCr([c]) == if c == CR then [] else [c]
  {
  }

  /** Reading one more character appends what is kept of it. */
  lemma StripCrStep(s: string, i: nat)
    requires i < |s|
    ensures StripCr(s[..i + 1]) == StripCr(s[..i]) + Kept(s[i])
  {
    assert s[..i + 1] == s[..i] + [s[i]];
    StripCrDistributes(s[..i], [s[i]]);
    StripCrSingle(s[i]);
  }

  /** A string without carriage returns is left unchanged. */
  lemma {:induction false} StripCrOfCrFree(s: string)
    requires CR !in s
    ensures StripCr(s) == s
  {
    if |s| > 0 {
      assert CR !in s[1..];
      StripCrOfCrFree(s[1..]);
      assert s == [s[0]] + s[1..];
    }
  }

  /** Stripping twice is stripping once. */
  lemma StripCrIdempotent(s: string)
    ensures StripCr(StripCr(s)) == StripCr(s)
  {
    StripCrOfCrFree(StripCr(s));
  }

  /** Stripping never introduces a NUL, so the result is a complete C string. */
  lemma {:induction false} StripCrKeepsCString(s: string)
    requires NUL !in s
    ensures NUL !in StripCr(s)
  {
    if |s| > 0 {
      assert NUL !in s[1..];
      StripCrKeepsCString(s[1..]);
    }
  }

  /** Stripping a CR LF terminated line leaves it LF terminated. */
  lemma StripCrOfCrLfLine(text: string)
    requires CR !in text
    ensures StripCr(text + "\r\n") == text + "\n"
  {
    var lf: string := ['\n'];
    assert "\r\n" == [CR] + lf && "\n" == lf;
    StripCrDistributes(text, [CR] + lf);
    StripCrDistributes([CR], lf);
    StripCrSingle(CR);
    StripCrSingle('\n');
    StripCrOfCrFree(text);
  }

  /**
    The in-place two-pointer loop of `strip_cr`, run on a fresh buffer holding `s`
    and its terminating NUL. `src` is the read index, `dst` the write index; the
    loop stops at the first NUL. The result is the C string left at the start of
    the buffer.
   */
  method StripCrInPlace(s: string) returns (r: string)
    ensures r == StripCr(CView(s))
    ensures |r| <= |CView(s)|
  {
    var buf := new char[|s| + 1](i => if 0 <= i < |s| then s[i] else NUL);
    ghost var input := s + [NUL];
    var src, dst := 0, 0;
    while buf[src] != NUL
      invariant 0 <= dst <= src <= |s|
      invariant NUL !in s[..src]
      invariant forall i :: src <= i < buf.Length ==> buf[i] == input[i]
      invariant buf[..dst] == StripCr(s[..src])
      decreases |s| - src
    {
      StripCrStep(s, src);
      if buf[src] == CR {
        src := src + 1;
        continue;
      }
      buf[dst] := buf[src];
      dst, src := dst + 1, src + 1;
    }
    assert CView(s) == s[..src];
    r := buf[..dst];
  }
}
