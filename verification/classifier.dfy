/**
  The final-result classifier `is_final_result` of at.c: does one line received
  from the modem end the reply to a command? Dispatch is on the first character,
  followed by an exact, case-sensitive comparison with a fixed text. The codes are
  the final result codes of ITU-T V.250 (section 5.7) and the `+CME ERROR:` /
  `+CMS ERROR:` reports of 3GPP TS 27.007 (section 9.2) and 3GPP TS 27.005
  (section 3.2.5); `RING` is not among them.
 */
module ResultClassifier {
  import opened CStrings

  const CmeErrorTag: string := "CME ERROR:"
  const CmsErrorTag: string := "CMS ERROR:"

  /** The six result codes accepted only as whole lines, carriage return and line feed included. */
  const WholeFinalLines: set<string> :=
    {"OK\r\n", "ERROR\r\n", "BUSY\r\n", "NO ANSWER\r\n", "NO CARRIER\r\n", "NO DIALTONE\r\n"}

  /**
    `is_final_result(response)`. `c` is the C string the routine reads; an empty
    one has NUL as its first character and takes the default branch. A `'+'` line
    is compared as a prefix (`strncmp` over the tag's length), every other code as
    a whole string (`strcmp`) from the second character on. The `'O'` case falls
    through to the default `false`.
   */
  predicate IsFinalResult(response: string)
  {
    var c := CView(response);
    if |c| == 0 then false
    else match c[0]
      case '+' => CmeErrorTag <= c[1..] || CmsErrorTag <= c[1..]
      case 'B' => c[1..] == "USY\r\n"
      case 'E' => c[1..] == "RROR\r\n"
      case 'N' => c[1..] == "O ANSWER\r\n" || c[1..] == "O CARRIER\r\n" || c[1..] == "O DIALTONE\r\n"
      case 'O' => c[1..] == "K\r\n"
      case _ => false
  }

  /** A mobile-equipment or message-service error report: the whole tag after `'+'`, then any detail. */
  predicate IsErrorReport(c: string)
  {
    "+" + CmeErrorTag <= c || "+" + CmsErrorTag <= c
  }

  /** A tag after a given first character is a prefix exactly when that character leads and the tag prefixes the rest. */
  lemma PrefixAfterHead(h: char, tag: string, c: string)
    requires |c| > 0
    ensures [h] + tag <= c <==> c[0] == h && tag <= c[1..]
  {
  }

  /** A whole string is a given first character and rest exactly when its head and tail are those. */
  lemma WholeAfterHead(h: char, rest: string, c: string)
    requires |c| > 0
    ensures c == [h] + rest <==> c[0] == h && c[1..] == rest
  {
  }

  /** Membership in the six whole result lines, decided by the first character and then the rest. */
  predicate CodeAfterHead(c: string)
  {
    |c| > 0 &&
    match c[0]
    case 'O' => c[1..] == "K\r\n"
    case 'E' => c[1..] == "RROR\r\n"
    case 'B' => c[1..] == "USY\r\n"
    case 'N' => c[1..] == "O ANSWER\r\n" || c[1..] == "O CARRIER\r\n" || c[1..] == "O DIALTONE\r\n"
    case _ => false
  }

  lemma WholeFinalLinesByHead(c: string)
    ensures c in WholeFinalLines <==> CodeAfterHead(c)
  {
    if |c| > 0 {
      WholeAfterHead('O', "K\r\n", c);
      WholeAfterHead('E', "RROR\r\n", c);
      WholeAfterHead('B', "USY\r\n", c);
      WholeAfterHead('N', "O ANSWER\r\n", c);
      WholeAfterHead('N', "O CARRIER\r\n", c);
      WholeAfterHead('N', "O DIALTONE\r\n", c);
      assert "OK\r\n" == ['O'] + "K\r\n";
      assert "ERROR\r\n" == ['E'] + "RROR\r\n";
      assert "BUSY\r\n" == ['B'] + "USY\r\n";
      assert "NO ANSWER\r\n" == ['N'] + "O ANSWER\r\n";
      assert "NO CARRIER\r\n" == ['N'] + "O CARRIER\r\n";
      assert "NO DIALTONE\r\n" == ['N'] + "O DIALTONE\r\n";
    }
  }

  /**
    The classifier against its reference: a line is final exactly when the text C
    sees is one of the six whole result lines or begins with an error-report tag.
   */
  lemma FinalIffCodeOrErrorReport(response: string)
    ensures IsFinalResult(response) <==> CView(response) in WholeFinalLines || IsErrorReport(CView(response))
  {
    var c := CView(response);
    WholeFinalLinesByHead(c);
    if |c| > 0 {
      PrefixAfterHead('+', CmeErrorTag, c);
      PrefixAfterHead('+', CmsErrorTag, c);
    }
  }

  /**
    For a line not starting with `'+'` (and free of NUL, so C sees all of it) the
    classifier accepts exactly the six whole result lines.
   */
  lemma WholeLineCodes(line: string)
    requires NUL !in line
    requires |line| == 0 || line[0] != '+'
    ensures IsFinalResult(line) <==> line in WholeFinalLines
  {
    CViewOfCString(line);
    FinalIffCodeOrErrorReport(line);
  }

  /** Each of the six result lines is final. */
  lemma WholeFinalLinesAreFinal()
    ensures forall line :: line in WholeFinalLines ==> IsFinalResult(line)
  {
    forall line | line in WholeFinalLines
      ensures IsFinalResult(line)
    {
      assert NUL !in line;
      CViewOfCString(line);
      FinalIffCodeOrErrorReport(line);
    }
  }

  /**
    A line starting with `'+'` is final exactly when it is an error report; every
    other `'+'` information line is not final, since no whole result line starts with `'+'`.
   */
  lemma PlusLineFinalIffErrorTag(line: string)
    requires |line| > 0 && line[0] == '+'
    ensures IsFinalResult(line) <==> IsErrorReport(CView(line))
  {
    FinalIffCodeOrErrorReport(line);
    WholeFinalLinesByHead(CView(line));
  }

  /** The detail after an error tag's colon is ignored, whatever it is. */
  lemma ErrorDetailIgnored(detail: string)
    ensures IsFinalResult("+" + CmeErrorTag + detail)
    ensures IsFinalResult("+" + CmsErrorTag + detail)
  {
    CViewKeepsCStringPrefix("+" + CmeErrorTag, detail);
    CViewKeepsCStringPrefix("+" + CmsErrorTag, detail);
    FinalIffCodeOrErrorReport("+" + CmeErrorTag + detail);
    FinalIffCodeOrErrorReport("+" + CmsErrorTag + detail);
  }

  /** No letter of a whole result line is lower case. */
  predicate NoLowerCase(s: string)
  {
    forall j :: 0 <= j < |s| ==> !('a' <= s[j] <= 'z')
  }

  /** No case folding: a line whose first character is a lower-case letter is never final. */
  lemma LowerCaseNeverFinal(line: string)
    requires |CView(line)| > 0 && 'a' <= CView(line)[0] <= 'z'
    ensures !IsFinalResult(line)
  {
    FinalIffCodeOrErrorReport(line);
    WholeFinalLinesByHead(CView(line));
  }

  /** The lower-case form of an upper-case letter. */
  function ToLower(c: char): (r: char)
    requires 'A' <= c <= 'Z'
    ensures 'a' <= r <= 'z'
  {
    (c as int - 'A' as int + 'a' as int) as char
  }

  lemma ResultTailsUpperCase()
    ensures NoLowerCase("K\r\n") && NoLowerCase("RROR\r\n") && NoLowerCase("USY\r\n")
    ensures NoLowerCase("O ANSWER\r\n") && NoLowerCase("O CARRIER\r\n") && NoLowerCase("O DIALTONE\r\n")
  {
  }

  /** Every whole result line is written in upper case only, and none starts with `'+'`. */
  lemma WholeFinalLinesUpperCase(w: string)
    requires w in WholeFinalLines
    ensures NoLowerCase(w) && w[0] != '+'
  {
    WholeFinalLinesByHead(w);
    ResultTailsUpperCase();
    forall j | 0 <= j < |w|
      ensures !('a' <= w[j] <= 'z')
    {
      if j > 0 {
        assert w[j] == w[1..][j - 1];
      }
    }
  }

  /**
    Matching is case-sensitive throughout: lowering any letter of one of the six
    whole result lines gives a line that is not final.
   */
  lemma LowerCasedCodeNotFinal(w: string, i: int)
    requires w in WholeFinalLines && 0 <= i < |w| && 'A' <= w[i] <= 'Z'
    ensures !IsFinalResult(w[i := ToLower(w[i])])
  {
    var v := w[i := ToLower(w[i])];
    WholeFinalLinesUpperCase(w);
    assert NUL !in v by {
      forall j | 0 <= j < |v|
        ensures v[j] != NUL
      {
        if j != i {
          assert v[j] == w[j];
        }
      }
    }
    LowerCaseNotWholeLine(v, i);
    WholeLineCodes(v);
  }

  /** A string holding a lower-case letter is none of the six whole result lines. */
  lemma LowerCaseNotWholeLine(v: string, i: int)
    requires 0 <= i < |v| && 'a' <= v[i] <= 'z'
    ensures v !in WholeFinalLines
  {
    if v in WholeFinalLines {
      WholeFinalLinesUpperCase(v);
    }
  }

  /** A C string that is neither a whole result line nor an error report is not final. */
  lemma OtherTextNotFinal(line: string)
    requires NUL !in line && line !in WholeFinalLines && !IsErrorReport(line)
    ensures !IsFinalResult(line)
  {
    CViewOfCString(line);
    FinalIffCodeOrErrorReport(line);
  }

  /** Near misses of the result codes, and `RING`, which this classifier does not treat as final. */
  const NearMisses: set<string> :=
    {"OK\n", "OK", "ok\r\n", "OK \r\n", " OK\r\n", "", "RING\r\n", "+CSQ: 15,99\r\n", "+CME ERROR 3\r\n"}

  /** Exact, case-sensitive matching with no trimming: none of the near misses is final. */
  lemma NearMissesNotFinal()
    ensures forall line :: line in NearMisses ==> !IsFinalResult(line)
  {
    forall line | line in NearMisses
      ensures !IsFinalResult(line)
    {
      if line == "+CSQ: 15,99\r\n" {
        assert line[2] != ("+" + CmeErrorTag)[2] && line[2] != ("+" + CmsErrorTag)[2];
      } else if line == "+CME ERROR 3\r\n" {
        assert line[10] != ("+" + CmeErrorTag)[10] && line[3] != ("+" + CmsErrorTag)[3];
      }
      OtherTextNotFinal(line);
    }
  }
}
