/** Topic filters against topic names, MQTT 3.1.1 section 4.7 without the rule for names starting with $
    (isTopicMatched in MQTTClient.h). */
module TopicMatcher {

  /** The levels of a topic name or filter; never empty, and empty levels count. */
  function Levels(s: string): (levels: seq<string>)
    ensures levels != []
    ensures levels[0] == "" <==> s == "" || s[0] == '/'
  {
    if s == "" then [""]
    else
      var rest := Levels(s[1..]);
      if s[0] == '/' then [""] + rest else [[s[0]] + rest[0]] + rest[1..]
  }

  function Join(levels: seq<string>): string
    requires levels != []
  {
    if |levels| == 1 then levels[0] else levels[0] + "/" + Join(levels[1..])
  }

  /** The levels are what stands between the slashes. */
  lemma {:induction false} LevelsOf(s: string)
    ensures Join(Levels(s)) == s && forall level <- Levels(s) :: '/' !in level
  {
    if s != "" {
      LevelsOf(s[1..]);
      var rest, levels := Levels(s[1..]), Levels(s);
      assert forall level <- rest[1..] :: level in rest;
      if s[0] == '/' {
        assert levels[1..] == rest;
      } else {
        assert levels[1..] == rest[1..] && rest[0] in rest;
      }
    }
  }

  predicate IsWildcard(c: char) {
    c == '+' || c == '#'
  }

  predicate Literal(level: string) {
    forall c <- level :: !IsWildcard(c)
  }

  /** Each wildcard takes up a whole level, and '#' only the last one. */
  predicate WellFormed(f: seq<string>) {
    forall i :: 0 <= i < |f| ==> f[i] == "+" || (f[i] == "#" && i == |f| - 1) || Literal(f[i])
  }

  /** Section 4.7: '+' is any one level, '#' any number of remaining levels, none included. */
  predicate Matches(f: seq<string>, n: seq<string>) {
    if f == [] then n == []
    else if f == ["#"] then true
    else n != [] && (f[0] == "+" || f[0] == n[0]) && Matches(f[1..], n[1..])
  }

  /** What the pointer loop decides: '+' is one non-empty level, '#' one or more levels, the first non-empty. */
  predicate LoopMatches(f: seq<string>, n: seq<string>) {
    if f == [] then n == []
    else
      && n != []
      && if f[0] == "#" then n[0] != ""
         else (if f[0] == "+" then n[0] != "" else f[0] == n[0]) && LoopMatches(f[1..], n[1..])
  }

  /** No wildcard stands for an empty level, and '#' has a level to stand for. */
  predicate WildcardsFilled(f: seq<string>, n: seq<string>) {
    && (forall i :: 0 <= i < |f| && i < |n| && (f[i] == "+" || f[i] == "#") ==> n[i] != "")
    && (f != [] && f[|f| - 1] == "#" ==> |n| >= |f|)
  }

  /** The loop finds exactly those matches of section 4.7 in which every wildcard is filled. */
  lemma {:induction false} LoopAgainstStandard(f: seq<string>, n: seq<string>)
    requires WellFormed(f)
    ensures LoopMatches(f, n) <==> Matches(f, n) && WildcardsFilled(f, n)
  {
    if f != [] && n != [] {
      if f[0] == "#" {
        NotLiteral("#");
        assert f == ["#"];
      } else {
        WellFormedTail(f);
        LoopAgainstStandard(f[1..], n[1..]);
        FilledTail(f, n);
      }
    }
  }

  lemma WellFormedTail(f: seq<string>)
    requires f != [] && WellFormed(f)
    ensures WellFormed(f[1..])
  {
    forall i | 0 <= i < |f[1..]|
      ensures f[1..][i] == "+" || (f[1..][i] == "#" && i == |f[1..]| - 1) || Literal(f[1..][i])
    {
      assert f[1..][i] == f[i + 1];
    }
  }

  lemma FilledTail(f: seq<string>, n: seq<string>)
    requires f != [] && n != [] && f[0] != "#"
    ensures WildcardsFilled(f, n) <==> (f[0] == "+" ==> n[0] != "") && WildcardsFilled(f[1..], n[1..])
  {
    if WildcardsFilled(f[1..], n[1..]) && (f[0] == "+" ==> n[0] != "") {
      forall i | 0 <= i < |f| && i < |n| && (f[i] == "+" || f[i] == "#")
        ensures n[i] != ""
      {
        if i > 0 {
          assert f[1..][i - 1] == f[i] && n[1..][i - 1] == n[i];
        }
      }
    }
    if WildcardsFilled(f, n) {
      forall i | 0 <= i < |f[1..]| && i < |n[1..]| && (f[1..][i] == "+" || f[1..][i] == "#")
        ensures n[1..][i] != ""
      {
        assert f[i + 1] == f[1..][i];
      }
    }
  }

  /** On names without empty levels the loop deviates from section 4.7 in one case: it does not take a filter
      that ends in '#' to match the parent level. */
  lemma OnNamesWithoutEmptyLevels(f: seq<string>, n: seq<string>)
    requires WellFormed(f) && f != [] && forall level <- n :: level != ""
    ensures LoopMatches(f, n) <==> Matches(f, n) && !(f[|f| - 1] == "#" && |n| + 1 == |f|)
  {
    LoopAgainstStandard(f, n);
    if Matches(f, n) {
      MatchLength(f, n);
      assert forall i :: 0 <= i < |n| ==> n[i] in n;
    }
  }

  lemma NotLiteral(level: string)
    requires |level| == 1 && IsWildcard(level[0])
    ensures !Literal(level)
  {
    assert level[0] in level;
  }

  lemma {:induction false} MatchLength(f: seq<string>, n: seq<string>)
    requires Matches(f, n)
    ensures |n| + 1 >= |f|
  {
    if f != [] && f != ["#"] {
      MatchLength(f[1..], n[1..]);
    }
  }

  /** The text of a filter that starts at a level boundary or inside a literal level. */
  ghost predicate WellFormedText(f: string) {
    WellFormed(Levels(f))
  }

  ghost predicate TextMatches(f: string, n: string) {
    LoopMatches(Levels(f), Levels(n))
  }

  /** A step of the loop over two equal characters. */
  lemma SameCharacter(f: string, n: string)
    requires f != "" && n != "" && f[0] == n[0] && !IsWildcard(f[0]) && WellFormedText(f)
    ensures WellFormedText(f[1..])
    ensures TextMatches(f, n) == TextMatches(f[1..], n[1..])
  {
    var lf, ln := Levels(f[1..]), Levels(n[1..]);
    if f[0] == '/' {
      assert Levels(f)[1..] == lf && Levels(n)[1..] == ln;
      WellFormedTail(Levels(f));
    } else {
      LiteralLevel(f);
      NotLiteral("+");
      NotLiteral("#");
      assert Levels(f)[0][0] == f[0];
      assert Levels(f)[1..] == lf[1..] && Levels(n)[1..] == ln[1..];
      assert [f[0]] + lf[0] == [n[0]] + ln[0] <==> lf[0] == ln[0] by {
        assert ([f[0]] + lf[0])[1..] == lf[0] && ([n[0]] + ln[0])[1..] == ln[0];
      }
    }
  }

  /** A level that starts with an ordinary character has no wildcard in it. */
  lemma LiteralLevel(f: string)
    requires f != "" && f[0] != '/' && !IsWildcard(f[0]) && WellFormedText(f)
    ensures Literal(Levels(f)[0]) && Literal(Levels(f[1..])[0])
    ensures WellFormedText(f[1..])
  {
    var levels, rest := Levels(f), Levels(f[1..]);
    assert levels[0][0] == f[0];
    assert Literal(levels[0]);
    forall c | c in rest[0]
      ensures !IsWildcard(c)
    {
      assert c in levels[0];
    }
    forall i | 0 <= i < |rest|
      ensures rest[i] == "+" || (rest[i] == "#" && i == |rest| - 1) || Literal(rest[i])
    {
      assert i > 0 ==> rest[i] == levels[i];
    }
  }

  /** Two different characters, or a level that ends in the name but not in the filter. */
  lemma DifferentCharacter(f: string, n: string)
    requires f != "" && n != "" && WellFormedText(f)
    requires (n[0] == '/' && f[0] != '/') || (!IsWildcard(f[0]) && f[0] != n[0])
    ensures !TextMatches(f, n)
  {
    if f[0] != '/' && !IsWildcard(f[0]) {
      LiteralLevel(f);
      assert Levels(f)[0][0] == f[0];
      assert n[0] != '/' ==> Levels(n)[0][0] == n[0];
    }
  }

  /** '+' over the first level of a name, which is k > 0 characters long. */
  lemma PlusSkipsLevel(f: string, n: string, k: nat)
    requires f != "" && f[0] == '+' && WellFormedText(f)
    requires 0 < k <= |n| && (forall i :: 0 <= i < k ==> n[i] != '/') && (k < |n| ==> n[k] == '/')
    ensures WellFormedText(f[1..])
    ensures TextMatches(f, n) == TextMatches(f[1..], n[k..])
  {
    WildcardLevel(f);
    SkipLevel(n, k);
    assert Levels(f)[0] == "+";
    assert Levels(f)[1..] == Levels(f[1..])[1..];
    WellFormedTail(Levels(f));
    var rest := Levels(f[1..]);
    forall i | 0 <= i < |rest|
      ensures rest[i] == "+" || (rest[i] == "#" && i == |rest| - 1) || Literal(rest[i])
    {
      assert i > 0 ==> rest[i] == Levels(f)[i];
    }
    assert Levels(n[k..])[1..] == Levels(n)[1..];
  }

  /** A wildcard character is a level of its own. */
  lemma WildcardLevel(f: string)
    requires f != "" && IsWildcard(f[0]) && WellFormedText(f)
    ensures Levels(f)[0] == [f[0]] && Levels(f[1..])[0] == ""
    ensures f[0] == '#' ==> f == "#"
  {
    var level := Levels(f)[0];
    assert level[0] == f[0] && f[0] in level;
    assert !Literal(level);
    assert |level| == 1;
    if f[0] == '#' {
      assert |Levels(f)| == 1;
      assert |Levels(f[1..])| == 1;
    }
  }

  lemma {:induction false} SkipLevel(n: string, k: nat)
    requires k <= |n| && (forall i :: 0 <= i < k ==> n[i] != '/') && (k < |n| ==> n[k] == '/')
    ensures Levels(n)[1..] == Levels(n[k..])[1..]
    ensures Levels(n)[0] == n[..k]
    decreases k
  {
    if k > 0 {
      assert n[1..][k - 1..] == n[k..];
      SkipLevel(n[1..], k - 1);
    }
  }

  /** Where one of the texts ends. */
  lemma AtEnd(f: string, n: string)
    requires f == "" || n == ""
    ensures TextMatches(f, n) <==> f == "" && n == ""
  {
    var lf, ln := Levels(f), Levels(n);
    assert Levels("") == [""] && [""][1..] == [];
    if f == "" && n == "" {
      assert LoopMatches(lf[1..], ln[1..]);
    } else if lf[0] == ln[0] {
      assert (f != "" && f[0] == '/') || (n != "" && n[0] == '/');
      assert !LoopMatches(lf[1..], ln[1..]);
    } else {
      assert lf[0] == "" || ln[0] == "";
    }
  }

  /** isTopicMatched, with positions for the two pointers. */
  method IsTopicMatched(topicFilter: string, topicName: string) returns (matched: bool)
    requires WellFormed(Levels(topicFilter))
    ensures matched <==> LoopMatches(Levels(topicFilter), Levels(topicName))
  {
    var curf, curn, end := 0, 0, |topicName|;
    assert topicFilter[0..] == topicFilter && topicName[0..] == topicName;
    ghost var expected := TextMatches(topicFilter, topicName);
    while curf < |topicFilter| && curn < end
      invariant curf <= |topicFilter| && curn <= end
      invariant WellFormedText(topicFilter[curf..])
      invariant expected == TextMatches(topicFilter[curf..], topicName[curn..])
    {
      ghost var f, n := topicFilter[curf..], topicName[curn..];
      if (topicName[curn] == '/' && topicFilter[curf] != '/')
        || (!IsWildcard(topicFilter[curf]) && topicFilter[curf] != topicName[curn])
      {
        DifferentCharacter(f, n);
        break;
      }
      if topicFilter[curf] == '+' {
        ghost var start := curn;
        var nextpos := curn + 1;
        while nextpos < end && topicName[nextpos] != '/'
          invariant start <= curn < end && nextpos == curn + 1
          invariant forall i :: start <= i < nextpos ==> topicName[i] != '/'
        {
          curn := curn + 1;
          nextpos := curn + 1;
        }
        PlusSkipsLevel(f, n, nextpos - start);
        assert n[nextpos - start..] == topicName[nextpos..];
      } else if topicFilter[curf] == '#' {
        WildcardLevel(f);
        assert topicName[end..] == "" && f[1..] == "";
        assert expected;
        curn := end - 1;
      } else {
        SameCharacter(f, n);
        assert n[1..] == topicName[curn + 1..];
      }
      curf := curf + 1;
      curn := curn + 1;
      assert f[1..] == topicFilter[curf..];
    }
    if curf == |topicFilter| || curn == end {
      AtEnd(topicFilter[curf..], topicName[curn..]);
    }
    matched := curn == end && curf == |topicFilter|;
  }
}
