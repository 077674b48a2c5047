/**
 * The three java.lang.String operations the goal relies on: split(",") with
 * its removal of trailing empty pieces, trim(), and equalsIgnoreCase (with
 * case folding restricted to ASCII letters).
 */
module JavaString {

  // ---------------------------------------------------------------- trim()

  /** trim() removes every character whose code is at most U+0020. */
  predicate IsTrimmable(c: char) {
    c <= ' '
  }

  /** The first loop of trim(): the leading trimmable characters removed. */
  function TrimStart(s: string): (r: string)
    ensures |r| <= |s| && r == s[|s| - |r|..]
    ensures r == [] || !IsTrimmable(r[0])
    ensures forall k :: 0 <= k < |s| - |r| ==> IsTrimmable(s[k])
    decreases |s|
  {
    if s != [] && IsTrimmable(s[0]) then TrimStart(s[1..]) else s
  }

  /** The second loop of trim(): the trailing trimmable characters removed. */
  function TrimEnd(s: string): (r: string)
    ensures |r| <= |s| && r == s[..|r|]
    ensures r == [] || !IsTrimmable(r[|r| - 1])
    ensures forall k :: |r| <= k < |s| ==> IsTrimmable(s[k])
    decreases |s|
  {
    if s != [] && IsTrimmable(s[|s| - 1]) then TrimEnd(s[..|s| - 1]) else s
  }

  /**
   * String.trim(): the substring that is left once the longest trimmable
   * prefix and the longest trimmable suffix are taken away.
   */
  function Trim(s: string): (r: string)
    ensures r == [] || (!IsTrimmable(r[0]) && !IsTrimmable(r[|r| - 1]))
    ensures var lead := |s| - |TrimStart(s)|;
      lead + |r| <= |s| && r == s[lead..lead + |r|]
      && (forall k :: 0 <= k < lead ==> IsTrimmable(s[k]))
      && (forall k :: lead + |r| <= k < |s| ==> IsTrimmable(s[k]))
  {
    TrimEnd(TrimStart(s))
  }

  /** A string that neither starts nor ends with a trimmable character is its own trim. */
  lemma TrimKeepsTrimmed(s: string)
    requires s == [] || (!IsTrimmable(s[0]) && !IsTrimmable(s[|s| - 1]))
    ensures Trim(s) == s
  {
  }

  /** Trimming twice is trimming once. */
  lemma TrimIdempotent(s: string)
    ensures Trim(Trim(s)) == Trim(s)
  {
    TrimKeepsTrimmed(Trim(s));
  }

  // ---------------------------------------------------------- split(",")

  /** Every comma-separated piece of s, in order, with none dropped. */
  function SplitAll(s: string): (pieces: seq<string>)
    ensures |pieces| > 0
    ensures forall p :: p in pieces ==> ',' !in p
    decreases |s|
  {
    if s == [] then [""]
    else
      var rest := SplitAll(s[1..]);
      if s[0] == ',' then [""] + rest
      else [[s[0]] + rest[0]] + rest[1..]
  }

  /** There is one piece more than there are commas. */
  lemma {:induction false} SplitAllCount(s: string)
    ensures |SplitAll(s)| == multiset(s)[','] + 1
    decreases |s|
  {
    if s != [] {
      SplitAllCount(s[1..]);
      assert s == [s[0]] + s[1..];
      assert multiset(s)[','] == multiset(s[1..])[','] + (if s[0] == ',' then 1 else 0);
    }
  }

  /** The pieces put back together with a comma between neighbours. */
  function Join(pieces: seq<string>): string
    decreases |pieces|
  {
    if pieces == [] then ""
    else if |pieces| == 1 then pieces[0]
    else pieces[0] + [','] + Join(pieces[1..])
  }

  /** Join of a first piece followed by at least one more. */
  lemma JoinCons(head: string, pieces: seq<string>)
    requires pieces != []
    ensures Join([head] + pieces) == head + [','] + Join(pieces)
  {
    assert ([head] + pieces)[1..] == pieces;
  }

  /** Prefixing a character to the first piece prefixes it to the join. */
  lemma JoinExtendHead(c: char, pieces: seq<string>)
    requires pieces != []
    ensures Join([[c] + pieces[0]] + pieces[1..]) == [c] + Join(pieces)
  {
    if |pieces| > 1 {
      JoinCons([c] + pieces[0], pieces[1..]);
      JoinCons(pieces[0], pieces[1..]);
      assert [pieces[0]] + pieces[1..] == pieces;
    }
  }

  /** Joining the pieces of s gives s back. */
  lemma {:induction false} JoinSplitAll(s: string)
    ensures Join(SplitAll(s)) == s
    decreases |s|
  {
    if s != [] {
      var rest := SplitAll(s[1..]);
      JoinSplitAll(s[1..]);
      assert s == [s[0]] + s[1..];
      if s[0] == ',' {
        JoinCons("", rest);
      } else {
        JoinExtendHead(s[0], rest);
      }
    }
  }

  /** A comma-free string is a single piece. */
  lemma {:induction false} SplitAllNoComma(p: string)
    requires ',' !in p
    ensures SplitAll(p) == [p]
    decreases |p|
  {
    if p != [] {
      assert p == [p[0]] + p[1..];
      SplitAllNoComma(p[1..]);
    }
  }

  /** A comma-free piece followed by a comma splits off as the first piece. */
  lemma {:induction false} SplitAllPiece(p: string, rest: string)
    requires ',' !in p
    ensures SplitAll(p + [','] + rest) == [p] + SplitAll(rest)
    decreases |p|
  {
    var s := p + [','] + rest;
    if p == [] {
      assert s[1..] == rest;
    } else {
      assert s[1..] == p[1..] + [','] + rest;
      SplitAllPiece(p[1..], rest);
      assert [p[0]] + p[1..] == p;
    }
  }

  /** Splitting a join of comma-free pieces gives the pieces back. */
  lemma {:induction false} SplitAllJoin(pieces: seq<string>)
    requires |pieces| > 0
    requires forall p :: p in pieces ==> ',' !in p
    ensures SplitAll(Join(pieces)) == pieces
    decreases |pieces|
  {
    if |pieces| == 1 {
      SplitAllNoComma(pieces[0]);
    } else {
      SplitAllJoin(pieces[1..]);
      SplitAllPiece(pieces[0], Join(pieces[1..]));
      assert [pieces[0]] + pieces[1..] == pieces;
    }
  }

  /** With limit 0, split drops the empty pieces at the end. */
  function DropTrailingEmpty(pieces: seq<string>): (r: seq<string>)
    ensures |r| <= |pieces| && r == pieces[..|r|]
    ensures r == [] || r[|r| - 1] != ""
    ensures forall k :: |r| <= k < |pieces| ==> pieces[k] == ""
    decreases |pieces|
  {
    if pieces != [] && pieces[|pieces| - 1] == "" then DropTrailingEmpty(pieces[..|pieces| - 1])
    else pieces
  }

  /**
   * String.split(","): a string without a comma is returned whole (so "" gives
   * [""]); otherwise the pieces, with the trailing empty ones removed.
   */
  function Split(s: string): (r: seq<string>)
    ensures forall p :: p in r ==> ',' !in p
    ensures ',' !in s ==> r == [s]
    ensures ',' in s ==>
      && |r| <= |SplitAll(s)|
      && r == SplitAll(s)[..|r|]
      && (r == [] || r[|r| - 1] != "")
      && (forall k :: |r| <= k < |SplitAll(s)| ==> SplitAll(s)[k] == "")
  {
    if ',' !in s then [s] else DropTrailingEmpty(SplitAll(s))
  }

  /** A string without a comma is returned whole; in particular "" gives [""]. */
  lemma SplitWithoutComma()
    ensures Split("") == [""]
    ensures Split("tar.gz") == ["tar.gz"]
  {
    assert ',' !in "";
    assert ',' !in "tar.gz";
  }

  /** Two comma-free pieces, the second not empty, split apart again. */
  lemma SplitTwo(a: string, b: string)
    requires ',' !in a && ',' !in b && b != ""
    ensures Split(a + [','] + b) == [a, b]
  {
    var s := a + [','] + b;
    assert s[|a|] == ',';
    SplitAllPiece(a, b);
    SplitAllNoComma(b);
  }

  /** Two comma-separated pieces. */
  lemma SplitTwoPieces()
    ensures Split("tar.gz,zip") == ["tar.gz", "zip"]
  {
    SplitTwo("tar.gz", "zip");
    assert "tar.gz" + [','] + "zip" == "tar.gz,zip";
  }

  /** A lone comma has only empty pieces, so nothing is left. */
  lemma SplitLoneComma()
    ensures Split(",") == []
  {
    var s := ",";
    assert s == "" + [','] + "";
    assert ',' in s by { assert s[0] == ','; }
    SplitAllPiece("", "");
    SplitAllNoComma("");
    assert SplitAll(s) == ["", ""];
    assert DropTrailingEmpty(["", ""]) == DropTrailingEmpty([""]) == [];
  }

  /** All five pieces of "a,,b,,", the last two empty. */
  lemma SplitAllFivePieces()
    ensures SplitAll("a,,b,,") == ["a", "", "b", "", ""]
  {
    var t1, t2, t3 := ",", "b,,", ",b,,";
    assert t1 == "" + [','] + "";
    assert t2 == "b" + [','] + t1;
    assert t3 == "" + [','] + t2;
    assert "a,,b,," == "a" + [','] + t3;
    SplitAllNoComma("");
    SplitAllPiece("", "");
    SplitAllPiece("b", t1);
    SplitAllPiece("", t2);
    SplitAllPiece("a", t3);
  }

  /** Empty pieces in the middle stay; those at the end go. */
  lemma SplitDropsOnlyTrailingEmpty()
    ensures Split("a,,b,,") == ["a", "", "b"]
  {
    var s := "a,,b,,";
    assert ',' in s by { assert s[1] == ','; }
    SplitAllFivePieces();
    var full := ["a", "", "b", "", ""];
    var four := ["a", "", "b", ""];
    var three := ["a", "", "b"];
    assert full[..4] == four && four[..3] == three;
    assert DropTrailingEmpty(full) == DropTrailingEmpty(four);
    assert DropTrailingEmpty(four) == DropTrailingEmpty(three) == three;
  }

  // --------------------------------------------------- equalsIgnoreCase()

  function ToUpperAscii(c: char): char {
    if 'a' <= c <= 'z' then (c as int - 32) as char else c
  }

  function ToLowerAscii(c: char): char {
    if 'A' <= c <= 'Z' then (c as int + 32) as char else c
  }

  /** The per-character test of equalsIgnoreCase: equal, equal upper case, or equal lower case of upper case. */
  predicate SameIgnoringCase(c: char, d: char) {
    c == d
    || ToUpperAscii(c) == ToUpperAscii(d)
    || ToLowerAscii(ToUpperAscii(c)) == ToLowerAscii(ToUpperAscii(d))
  }

  /** String.equalsIgnoreCase: same length and every character pair equal ignoring case. */
  predicate EqualsIgnoreCase(a: string, b: string) {
    |a| == |b| && forall i :: 0 <= i < |a| ==> SameIgnoringCase(a[i], b[i])
  }

  /** The string in upper case. */
  function Upper(s: string): (r: string)
    ensures |r| == |s|
    ensures forall i :: 0 <= i < |s| ==> r[i] == ToUpperAscii(s[i])
    decreases |s|
  {
    if s == [] then [] else [ToUpperAscii(s[0])] + Upper(s[1..])
  }

  /** Over ASCII folding, the per-character test is equality in upper case. */
  lemma SameIgnoringCaseIsUpperEquality(c: char, d: char)
    ensures SameIgnoringCase(c, d) <==> ToUpperAscii(c) == ToUpperAscii(d)
  {
  }

  /** equalsIgnoreCase is exactly equality of the upper-cased strings. */
  lemma EqualsIgnoreCaseIsUpperEquality(a: string, b: string)
    ensures EqualsIgnoreCase(a, b) <==> Upper(a) == Upper(b)
  {
    forall i | 0 <= i < |a| && i < |b|
      ensures SameIgnoringCase(a[i], b[i]) <==> ToUpperAscii(a[i]) == ToUpperAscii(b[i])
    {
      SameIgnoringCaseIsUpperEquality(a[i], b[i]);
    }
    if Upper(a) == Upper(b) {
      assert forall i :: 0 <= i < |a| ==> Upper(a)[i] == Upper(b)[i];
    }
  }

  /** equalsIgnoreCase is an equivalence relation. */
  lemma EqualsIgnoreCaseIsEquivalence(a: string, b: string, c: string)
    ensures EqualsIgnoreCase(a, a)
    ensures EqualsIgnoreCase(a, b) ==> EqualsIgnoreCase(b, a)
    ensures EqualsIgnoreCase(a, b) && EqualsIgnoreCase(b, c) ==> EqualsIgnoreCase(a, c)
  {
    EqualsIgnoreCaseIsUpperEquality(a, b);
    EqualsIgnoreCaseIsUpperEquality(b, a);
    EqualsIgnoreCaseIsUpperEquality(b, c);
    EqualsIgnoreCaseIsUpperEquality(a, c);
  }

  /** Strings of different length are never equal ignoring case. */
  lemma EqualsIgnoreCaseNeedsSameLength(a: string, b: string)
    requires |a| != |b|
    ensures !EqualsIgnoreCase(a, b)
  {
  }

  /** Strings that differ only in the case of their letters are equal ignoring case. */
  lemma CaseVariantsAreEqual(a: string, b: string)
    requires |a| == |b|
    requires forall i :: 0 <= i < |a| ==> b[i] in {a[i], ToUpperAscii(a[i]), ToLowerAscii(a[i])}
    ensures EqualsIgnoreCase(a, b)
  {
  }
}
