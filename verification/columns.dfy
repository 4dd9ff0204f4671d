/**
  The column-name cleaning chain applied to the legacy report: six
  `str.replace` calls, each with a one-character pattern.
 */
module ColumnNames {

  /** `s.replace(c, t)` for a one-character pattern `c`. */
  function Replace(s: string, c: char, t: string): string {
    if s == [] then [] else (if s[0] == c then t else [s[0]]) + Replace(s[1..], c, t)
  }

  /**
    The chain `.replace(' ', '_').replace("(", "").replace(")", "")
    .replace("-", "_").replace("%", "Per").replace("=", "")`.
   */
  function Clean(name: string): string {
    Replace(Replace(Replace(Replace(Replace(Replace(
      name, ' ', "_"), '(', ""), ')', ""), '-', "_"), '%', "Per"), '=', "")
  }

  /** The characters the chain rewrites. */
  predicate Reserved(c: char) {
    c == ' ' || c == '(' || c == ')' || c == '-' || c == '%' || c == '='
  }

  predicate NoReserved(s: string) {
    forall i :: 0 <= i < |s| ==> !Reserved(s[i])
  }

  /** What the whole chain does to one character. */
  function CleanChar(c: char): (r: string)
    ensures NoReserved(r)
    ensures !Reserved(c) ==> r == [c]
  {
    if c == ' ' || c == '-' then "_"
    else if c == '(' || c == ')' || c == '=' then ""
    else if c == '%' then "Per"
    else [c]
  }

  /** Reference definition: rewrite each character on its own, in one pass. */
  function CleanEach(s: string): string {
    if s == [] then [] else CleanChar(s[0]) + CleanEach(s[1..])
  }

  lemma {:induction false} ReplaceAppend(a: string, b: string, c: char, t: string)
    ensures Replace(a + b, c, t) == Replace(a, c, t) + Replace(b, c, t)
  {
    if a == [] {
      assert a + b == b;
    } else {
      assert (a + b)[1..] == a[1..] + b;
      ReplaceAppend(a[1..], b, c, t);
    }
  }

  /** A string without the pattern character is left as it is. */
  lemma {:induction false} ReplaceAbsent(s: string, c: char, t: string)
    requires forall i :: 0 <= i < |s| ==> s[i] != c
    ensures Replace(s, c, t) == s
  {
    if s != [] {
      ReplaceAbsent(s[1..], c, t);
    }
  }

  /** The six-step chain rewrites one character as CleanChar does. */
  lemma CleanOneChar(c: char)
    ensures Clean([c]) == CleanChar(c)
  {
    ReplaceOne(c, ' ', "_");
    var s1 := if c == ' ' then "_" else [c];
    if s1 == "_" {
      ReplaceAbsent("_", '(', "");
      ReplaceAbsent("_", ')', "");
      ReplaceAbsent("_", '-', "_");
      ReplaceAbsent("_", '%', "Per");
      ReplaceAbsent("_", '=', "");
    } else {
      ReplaceOne(c, '(', "");
      if c == '(' {
        assert Clean([c]) == "";
      } else {
        ReplaceOne(c, ')', "");
        if c != ')' {
          ReplaceOne(c, '-', "_");
          if c == '-' {
            ReplaceAbsent("_", '%', "Per");
            ReplaceAbsent("_", '=', "");
          } else {
            ReplaceOne(c, '%', "Per");
            if c == '%' {
              ReplaceAbsent("Per", '=', "");
            } else {
              ReplaceOne(c, '=', "");
            }
          }
        }
      }
    }
  }

  lemma ReplaceOne(c: char, p: char, t: string)
    ensures Replace([c], p, t) == if c == p then t else [c]
  {
    assert [c][1..] == [];
  }

  /** The chain distributes over concatenation. */
  lemma CleanAppend(a: string, b: string)
    ensures Clean(a + b) == Clean(a) + Clean(b)
  {
    var s1a, s1b := Replace(a, ' ', "_"), Replace(b, ' ', "_");
    ReplaceAppend(a, b, ' ', "_");
    var s2a, s2b := Replace(s1a, '(', ""), Replace(s1b, '(', "");
    ReplaceAppend(s1a, s1b, '(', "");
    var s3a, s3b := Replace(s2a, ')', ""), Replace(s2b, ')', "");
    ReplaceAppend(s2a, s2b, ')', "");
    var s4a, s4b := Replace(s3a, '-', "_"), Replace(s3b, '-', "_");
    ReplaceAppend(s3a, s3b, '-', "_");
    var s5a, s5b := Replace(s4a, '%', "Per"), Replace(s4b, '%', "Per");
    ReplaceAppend(s4a, s4b, '%', "Per");
    ReplaceAppend(s5a, s5b, '=', "");
  }

  /**
    The chain of replacements is the one-pass character rewrite: each
    character is rewritten on its own, so the characters it keeps stay in
    their original order.
   */
  lemma {:induction false} CleanIsCharwise(s: string)
    ensures Clean(s) == CleanEach(s)
  {
    if s == [] {
    } else {
      assert s == [s[0]] + s[1..];
      CleanAppend([s[0]], s[1..]);
      CleanOneChar(s[0]);
      CleanIsCharwise(s[1..]);
    }
  }

  lemma {:induction false} CleanEachNoReserved(s: string)
    ensures NoReserved(CleanEach(s))
  {
    if s != [] {
      CleanEachNoReserved(s[1..]);
      var h, t := CleanChar(s[0]), CleanEach(s[1..]);
      assert CleanEach(s) == h + t;
      forall i | 0 <= i < |h + t| ensures !Reserved((h + t)[i]) {
        if i >= |h| {
          assert (h + t)[i] == t[i - |h|];
        }
      }
    }
  }

  /** A cleaned name contains none of ' ', '(', ')', '-', '%', '='. */
  lemma CleanNoReserved(s: string)
    ensures NoReserved(Clean(s))
  {
    CleanIsCharwise(s);
    CleanEachNoReserved(s);
  }

  lemma {:induction false} CleanEachIdentity(s: string)
    requires NoReserved(s)
    ensures CleanEach(s) == s
  {
    if s != [] {
      CleanEachIdentity(s[1..]);
    }
  }

  /** The names the chain leaves unchanged are exactly the names without reserved characters. */
  lemma CleanFixpoints(s: string)
    ensures Clean(s) == s <==> NoReserved(s)
  {
    CleanNoReserved(s);
    if NoReserved(s) {
      CleanIsCharwise(s);
      CleanEachIdentity(s);
    }
  }

  /** Cleaning twice is cleaning once. */
  lemma CleanIdempotent(s: string)
    ensures Clean(Clean(s)) == Clean(s)
  {
    CleanNoReserved(s);
    CleanFixpoints(Clean(s));
  }

  /** A word without reserved characters followed by a space cleans to the word and '_'. */
  lemma CleanWordSpace(w: string)
    requires NoReserved(w)
    ensures Clean(w + " ") == w + "_"
  {
    CleanAppend(w, " ");
    CleanFixpoints(w);
    CleanOneChar(' ');
  }

  /** Four words joined by spaces clean to the same words joined by '_'. */
  lemma CleanFourWords(s: string, t: string, a: string, b: string, c: string, d: string)
    requires NoReserved(a) && NoReserved(b) && NoReserved(c) && NoReserved(d)
    requires s == (a + " ") + ((b + " ") + ((c + " ") + d))
    requires t == (a + "_") + ((b + "_") + ((c + "_") + d))
    ensures Clean(s) == t
  {
    CleanWordSpace(a);
    CleanWordSpace(b);
    CleanWordSpace(c);
    CleanFixpoints(d);
    CleanAppend(c + " ", d);
    CleanAppend(b + " ", (c + " ") + d);
    CleanAppend(a + " ", (b + " ") + ((c + " ") + d));
  }

  /** The four words of the legacy report's code column name hold no reserved character. */
  lemma CodeNameWords()
    ensures NoReserved("CFTC") && NoReserved("Contract") && NoReserved("Market") && NoReserved("Code")
  {
  }

  /** The legacy report's code column name, split into its words. */
  lemma CodeNameJoins()
    ensures "CFTC Contract Market Code" == ("CFTC" + " ") + (("Contract" + " ") + (("Market" + " ") + "Code"))
    ensures "CFTC_Contract_Market_Code" == ("CFTC" + "_") + (("Contract" + "_") + (("Market" + "_") + "Code"))
  {
  }

  /** The legacy report's code column name cleans to the disaggregated report's. */
  lemma CleanCodeName()
    ensures Clean("CFTC Contract Market Code") == "CFTC_Contract_Market_Code"
  {
    CodeNameWords();
    CodeNameJoins();
    CleanFourWords("CFTC Contract Market Code", "CFTC_Contract_Market_Code", "CFTC", "Contract", "Market", "Code");
  }
}
