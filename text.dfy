/** String operations used when reading chains back as text: `std::sort` followed by
    `std::unique` on a boundary word, and the `,.` / `.,` rewrite that
    `strBoxToString` repeats until nothing changes (src/untypeset.cc). */
module Text {

  predicate StrictlySorted(s: string) {
    forall p, q :: 0 <= p < q < |s| ==> s[p] < s[q]
  }

  /** `c` added to a strictly sorted string, keeping it strictly sorted. */
  function InsertUnique(c: char, s: string): (r: string)
    requires StrictlySorted(s)
    ensures StrictlySorted(r)
    ensures forall x :: x in r <==> x == c || x in s
  {
    if s == [] then [c]
    else if c < s[0] then [c] + s
    else if c == s[0] then s
    else
      var rest := InsertUnique(c, s[1..]);
      assert forall k :: 0 <= k < |rest| ==> s[0] < rest[k] by {
        forall k | 0 <= k < |rest| ensures s[0] < rest[k] {
          assert rest[k] in rest;
        }
      }
      [s[0]] + rest
  }

  /** The characters of `s` in increasing order, each once: what sorting a string and
      erasing the adjacent duplicates leaves. */
  function SortedUnique(s: string): (r: string)
    ensures StrictlySorted(r)
    ensures forall x :: x in r <==> x in s
  {
    if s == [] then [] else InsertUnique(s[|s| - 1], SortedUnique(s[..|s| - 1]))
  }

  /** Strictly sorted strings over the same characters are equal. */
  lemma {:induction false} SortedSetsEqual(a: string, b: string)
    requires StrictlySorted(a) && StrictlySorted(b)
    requires forall x :: x in a <==> x in b
    ensures a == b
    decreases |a|
  {
    assert a != [] ==> a[0] in b;
    assert b != [] ==> b[0] in a;
    if a != [] {
      assert a[0] == b[0];
      forall x ensures x in a[1..] <==> x in b[1..] {
        if x in a[1..] {
          assert x in b && x != b[0];
        }
        if x in b[1..] {
          assert x in a && x != a[0];
        }
      }
      SortedSetsEqual(a[1..], b[1..]);
    }
  }

  /** Two strings give the same sorted, duplicate-free string exactly when they use
      the same characters. */
  lemma SortedUniqueCanonical(s: string, t: string)
    ensures SortedUnique(s) == SortedUnique(t) <==> forall x :: x in s <==> x in t
  {
    if forall x :: x in s <==> x in t {
      SortedSetsEqual(SortedUnique(s), SortedUnique(t));
    }
  }

  // ------------------------------------------------------------ replace_all

  /** Every non-overlapping occurrence of `pat`, found scanning left to right, replaced
      by `rep`, as `boost::replace_all` does. */
  function ReplaceAll(s: string, pat: string, rep: string): string
    requires |pat| > 0
    decreases |s|
  {
    if |s| < |pat| then s
    else if s[..|pat|] == pat then rep + ReplaceAll(s[|pat|..], pat, rep)
    else [s[0]] + ReplaceAll(s[1..], pat, rep)
  }

  /** `t` is `s` with some commas turned into full stops, and nothing else changed. */
  predicate Dotting(s: string, t: string) {
    |s| == |t| && forall k :: 0 <= k < |s| ==> t[k] == s[k] || (s[k] == ',' && t[k] == '.')
  }

  /** The two-character string `pat` does not occur in `s`. */
  predicate Absent(s: string, pat: string)
    requires |pat| == 2
  {
    forall k :: 0 <= k < |s| - 1 ==> !(s[k] == pat[0] && s[k + 1] == pat[1])
  }

  function CommaCount(s: string): nat {
    if s == [] then 0 else (if s[0] == ',' then 1 else 0) + CommaCount(s[1..])
  }

  /** Replacing a pattern by one that only turns commas into full stops does the same
      to the whole string. */
  lemma {:induction false} ReplaceAllDots(s: string, pat: string, rep: string)
    requires |pat| == |rep| > 0 && Dotting(pat, rep)
    ensures Dotting(s, ReplaceAll(s, pat, rep))
    decreases |s|
  {
    if |s| >= |pat| {
      if s[..|pat|] == pat {
        ReplaceAllDots(s[|pat|..], pat, rep);
        assert s == pat + s[|pat|..];
      } else {
        ReplaceAllDots(s[1..], pat, rep);
      }
    }
  }

  /** A replacement that changes nothing found no occurrence. */
  lemma {:induction false} ReplaceAllFixed(s: string, pat: string, rep: string)
    requires |pat| == |rep| == 2 && pat != rep
    requires ReplaceAll(s, pat, rep) == s
    ensures Absent(s, pat)
    decreases |s|
  {
    if |s| >= |pat| {
      if s[..|pat|] == pat {
        assert false;
      } else {
        assert ReplaceAll(s, pat, rep) == [s[0]] + ReplaceAll(s[1..], pat, rep);
        assert ReplaceAll(s[1..], pat, rep) == s[1..];
        ReplaceAllFixed(s[1..], pat, rep);
        forall k | 0 <= k < |s| - 1 ensures !(s[k] == pat[0] && s[k + 1] == pat[1]) {
          if k > 0 {
            assert s[k] == s[1..][k - 1] && s[k + 1] == s[1..][k];
          } else {
            assert s[..2] != pat;
          }
        }
      }
    }
  }

  /** Turning commas into full stops never adds commas, and keeps them all only when
      nothing changed. */
  lemma {:induction false} DottingCount(s: string, t: string)
    requires Dotting(s, t)
    ensures CommaCount(t) <= CommaCount(s)
    ensures CommaCount(t) == CommaCount(s) ==> t == s
    decreases |s|
  {
    if s != [] {
      DottingCount(s[1..], t[1..]);
      if CommaCount(t) == CommaCount(s) {
        assert t[0] == s[0];
        assert t == [t[0]] + t[1..] && s == [s[0]] + s[1..];
      }
    }
  }

  /** One round of the rewrite loop. */
  function Step(s: string): string {
    ReplaceAll(ReplaceAll(s, ",.", ".."), ".,", "..")
  }

  lemma StepDots(s: string)
    ensures Dotting(s, Step(s))
    ensures Step(s) != s ==> CommaCount(Step(s)) < CommaCount(s)
  {
    ReplaceAllDots(s, ",.", "..");
    var r1 := ReplaceAll(s, ",.", "..");
    ReplaceAllDots(r1, ".,", "..");
    DottingCount(s, Step(s));
  }

  /** The rewrite repeated until a round changes nothing. */
  function Dotted(s: string): string
    decreases CommaCount(s)
  {
    StepDots(s);
    var t := Step(s);
    if t == s then s else Dotted(t)
  }

  /** The repeated rewrite only turns commas into full stops, and one more round
      changes nothing. */
  lemma {:induction false} DottedFixed(s: string)
    ensures Dotting(s, Dotted(s)) && Step(Dotted(s)) == Dotted(s)
    decreases CommaCount(s)
  {
    StepDots(s);
    var t := Step(s);
    if t != s {
      DottedFixed(t);
    }
  }

  /** The rewrite loop of `strBoxToString`: `,.` and then `.,` become `..`, round
      after round, until a round changes nothing. */
  method RewriteDots(s: string) returns (result: string)
    ensures result == Dotted(s)
  {
    var oldResult := s;
    result := ReplaceAll(s, ",.", "..");
    result := ReplaceAll(result, ".,", "..");
    while oldResult != result
      invariant result == Step(oldResult) && Dotted(oldResult) == Dotted(s)
      decreases CommaCount(oldResult)
    {
      StepDots(oldResult);
      oldResult := result;
      result := ReplaceAll(result, ",.", "..");
      result := ReplaceAll(result, ".,", "..");
    }
  }

  /** A string the rewrite leaves alone contains neither `,.` nor `.,`. */
  lemma StepFixedClean(s: string)
    requires Step(s) == s
    ensures Absent(s, ",.") && Absent(s, ".,")
  {
    var r1 := ReplaceAll(s, ",.", "..");
    ReplaceAllDots(s, ",.", "..");
    ReplaceAllDots(r1, ".,", "..");
    DottingCount(s, r1);
    DottingCount(r1, s);
    ReplaceAllFixed(s, ",.", "..");
    ReplaceAllFixed(s, ".,", "..");
  }

  /** The rewritten text has the length of the original, differs from it only where a
      comma became a full stop, and holds neither `,.` nor `.,`. */
  lemma DottedClean(s: string)
    ensures |Dotted(s)| == |s|
    ensures forall k :: 0 <= k < |s| && Dotted(s)[k] != s[k] ==> s[k] == ',' && Dotted(s)[k] == '.'
    ensures Absent(Dotted(s), ",.") && Absent(Dotted(s), ".,")
  {
    DottedFixed(s);
    StepFixedClean(Dotted(s));
  }
}
