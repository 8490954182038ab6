/** Canonical names of functions and packages, and the registry keys built from them. */
module Names {
  import opened Wrappers

  /** What the builder reads from a Go `*types.Func`: its qualified name
      (`types.Func.FullName`), whether `Parent()` is non-nil, and whether its
      package belongs to the Go distribution (the answer of an external package
      lookup). In `go/types` a package-level function's parent is its package
      scope, while a method's parent is nil, so `hasParent` is true for the
      former and false for methods. */
  datatype Func = Func(fullName: string, hasParent: bool, inGoRoot: bool)

  /** A Go `*types.Package`, reduced to its import path. */
  datatype Package = Package(path: string)

  /** Import path the Go loader gives to files analysed outside any module. */
  const Placeholder: string := "command-line-arguments"

  /** The placeholder as it appears as a qualifier inside a full name. */
  const PlaceholderQualifier: string := "command-line-arguments."

  predicate OccursAt(s: string, pat: string, i: nat) {
    i + |pat| <= |s| && s[i..i + |pat|] == pat
  }

  predicate Contains(s: string, pat: string) {
    exists i: nat | i <= |s| :: OccursAt(s, pat, i)
  }

  /** An occurrence in a non-empty string is either at its head or in its tail. */
  lemma ContainsShift(s: string, pat: string)
    requires |s| > 0
    ensures Contains(s, pat) <==> OccursAt(s, pat, 0) || Contains(s[1..], pat)
  {
    if Contains(s, pat) && !OccursAt(s, pat, 0) {
      var i: nat :| i <= |s| && OccursAt(s, pat, i);
      assert s[1..][i - 1..i - 1 + |pat|] == s[i..i + |pat|];
      assert OccursAt(s[1..], pat, i - 1);
    }
    if Contains(s[1..], pat) {
      var i: nat :| i <= |s[1..]| && OccursAt(s[1..], pat, i);
      assert s[1..][i..i + |pat|] == s[i + 1..i + 1 + |pat|];
      assert OccursAt(s, pat, i + 1);
    }
  }

  /** `strings.ReplaceAll(s, "command-line-arguments.", "")`: scans left to right
      and deletes each non-overlapping occurrence of the qualifier. */
  function StripQualifier(s: string): (r: string)
    ensures |r| <= |s|
    ensures r == s <==> !Contains(s, PlaceholderQualifier)
    ensures forall c :: c in r ==> c in s
    decreases |s|
  {
    if |s| == 0 then ""
    else if OccursAt(s, PlaceholderQualifier, 0) then
      var rest := StripQualifier(s[|PlaceholderQualifier|..]);
      assert forall c :: c in rest ==> c in s by {
        forall c | c in rest
          ensures c in s
        {
          var k :| 0 <= k < |s[|PlaceholderQualifier|..]| && s[|PlaceholderQualifier|..][k] == c;
          assert s[|PlaceholderQualifier| + k] == c;
        }
      }
      rest
    else
      var rest := StripQualifier(s[1..]);
      ContainsShift(s, PlaceholderQualifier);
      assert ([s[0]] + rest)[1..] == rest;
      assert forall c :: c in rest ==> c in s by {
        forall c | c in rest
          ensures c in s
        {
          var k :| 0 <= k < |s[1..]| && s[1..][k] == c;
          assert s[1 + k] == c;
        }
      }
      [s[0]] + rest
  }

  /** Shifting by one character: an occurrence in the tail is one further on in the whole. */
  lemma OccursShift(s: string, pat: string, j: nat)
    requires |s| > 0
    ensures OccursAt(s, pat, j + 1) <==> OccursAt(s[1..], pat, j)
  {
    if j + 1 + |pat| <= |s| {
      assert s[1..][j..j + |pat|] == s[j + 1..j + 1 + |pat|];
    }
  }

  /** The position of the first occurrence of `pat` in `s`, as `strings.Index` finds it. */
  function FirstIndex(s: string, pat: string): (i: nat)
    requires Contains(s, pat)
    ensures OccursAt(s, pat, i)
    ensures forall j: nat | j < i :: !OccursAt(s, pat, j)
    decreases |s|
  {
    if OccursAt(s, pat, 0) then 0
    else
      ContainsShift(s, pat);
      var k := FirstIndex(s[1..], pat);
      OccursShift(s, pat, k);
      assert forall j: nat | j < k + 1 :: !OccursAt(s, pat, j) by {
        forall j: nat | 0 < j < k + 1
          ensures !OccursAt(s, pat, j)
        {
          OccursShift(s, pat, j - 1);
        }
      }
      k + 1
  }

  /** `strings.ReplaceAll` as a loop over `strings.Index`: everything before the
      first occurrence is kept, the occurrence is dropped, and the scan resumes
      right after it. */
  lemma {:induction false} StripAtFirst(s: string)
    requires Contains(s, PlaceholderQualifier)
    ensures var i := FirstIndex(s, PlaceholderQualifier);
      StripQualifier(s) == s[..i] + StripQualifier(s[i + |PlaceholderQualifier|..])
    decreases |s|
  {
    var q := PlaceholderQualifier;
    var i := FirstIndex(s, q);
    if i == 0 {
      assert s[..0] == [];
    } else {
      var t := s[1..];
      assert !OccursAt(s, q, 0) && s == [s[0]] + t;
      assert FirstIndex(s, q) == FirstIndex(t, q) + 1 by {
        ContainsShift(s, q);
      }
      StripKeepsHead(s[0], t);
      StripAtFirst(t);
      HeadSplit(s, i, StripQualifier(s[i + |q|..]));
    }
  }

  /** Re-associating the kept prefix: the head character and the rest of the prefix. */
  lemma HeadSplit(s: string, i: nat, rest: string)
    requires 0 < i <= |s|
    ensures [s[0]] + (s[1..][..i - 1] + rest) == s[..i] + rest
  {
    assert [s[0]] + s[1..][..i - 1] == s[..i];
  }

  /** The canonical name of a function: its full name with the placeholder
      qualifier removed. */
  function FunName(f: Func): string {
    StripQualifier(f.fullName)
  }

  /** The import path of a package, empty for a nil package and for the placeholder. */
  function PkgPath(pkg: Option<Package>): (r: string)
    ensures r == "" <==> pkg.None? || pkg.value.path == Placeholder || pkg.value.path == ""
    ensures r != "" ==> r == pkg.value.path
  {
    match pkg
    case None => ""
    case Some(p) => if p.path == Placeholder then "" else p.path
  }

  const NodeKeyPrefix: string := "func ~ "
  const EdgeKeyPrefix: string := "call "
  const Arrow: string := " -> "

  /** Registry key of a function node, `fmt.Sprintf("func ~ %s", name)`. */
  function NodeKey(name: string): string {
    NodeKeyPrefix + name
  }

  /** Registry key of a static edge, `fmt.Sprintf("call %s -> %s", caller, callee)`. */
  function EdgeKey(caller: string, callee: string): string {
    EdgeKeyPrefix + caller + Arrow + callee
  }

  /** Node keys and edge keys are told apart by their first letter. */
  lemma NodeKeyNotEdgeKey(name: string, caller: string, callee: string)
    ensures NodeKey(name) != EdgeKey(caller, callee)
  {
    assert NodeKey(name)[0] == 'f';
    assert EdgeKey(caller, callee)[0] == 'c';
  }

  lemma NodeKeyInjective(a: string, b: string)
    ensures NodeKey(a) == NodeKey(b) <==> a == b
  {
    if NodeKey(a) == NodeKey(b) {
      assert a == NodeKey(a)[|NodeKeyPrefix|..];
      assert b == NodeKey(b)[|NodeKeyPrefix|..];
    }
  }

  /** In an edge key whose caller name has no '>', the first '>' is the one of the arrow. */
  lemma FirstArrowChar(caller: string, callee: string)
    requires '>' !in caller
    ensures var k := EdgeKey(caller, callee);
      && k[|caller| + 7] == '>'
      && forall i | 0 <= i < |caller| + 7 :: k[i] != '>'
  {
    var k := EdgeKey(caller, callee);
    forall i | 0 <= i < |caller| + 7
      ensures k[i] != '>'
    {
      if 5 <= i < 5 + |caller| {
        assert k[i] == caller[i - 5];
      }
    }
  }

  /** Edge keys determine the (caller, callee) pair when the caller names carry
      no '>', as Go qualified names practically never do (only through a quoted
      struct tag inside a receiver's type argument). */
  lemma EdgeKeyInjective(a: string, b: string, a2: string, b2: string)
    requires '>' !in a && '>' !in a2
    ensures EdgeKey(a, b) == EdgeKey(a2, b2) <==> a == a2 && b == b2
  {
    var k := EdgeKey(a, b);
    if k == EdgeKey(a2, b2) {
      FirstArrowChar(a, b);
      FirstArrowChar(a2, b2);
      assert |a| == |a2|;
      assert a == k[5..5 + |a|] == a2;
      assert b == k[|a| + 9..] == b2;
    }
  }

  /** Without that hypothesis two different pairs can share one key. */
  lemma EdgeKeyAmbiguous()
    ensures EdgeKey("x -> y", "z") == EdgeKey("x", "y -> z")
  {
  }

  /** A string that starts with the qualifier loses it. */
  lemma StripLeadingQualifier(s: string)
    ensures StripQualifier(PlaceholderQualifier + s) == StripQualifier(s)
  {
    assert (PlaceholderQualifier + s)[|PlaceholderQualifier|..] == s;
  }

  /** One mismatching character rules out an occurrence. */
  lemma MismatchAt(s: string, i: nat, j: nat)
    requires j < |PlaceholderQualifier| && i + j < |s|
    requires s[i + j] != PlaceholderQualifier[j]
    ensures !OccursAt(s, PlaceholderQualifier, i)
  {
  }

  /** A character that does not start an occurrence is kept. */
  lemma StripKeepsHead(c: char, s: string)
    requires !OccursAt([c] + s, PlaceholderQualifier, 0)
    ensures StripQualifier([c] + s) == [c] + StripQualifier(s)
  {
    assert ([c] + s)[1..] == s;
  }

  /** Names shorter than the qualifier cannot contain it. */
  lemma ShortNameUnchanged(s: string)
    requires |s| < |PlaceholderQualifier|
    ensures StripQualifier(s) == s
  {
  }

  /** The placeholder qualifier disappears from a plain function's name ... */
  lemma FunNameOfFunction()
    ensures FunName(Func(PlaceholderQualifier + "main", true, false)) == "main"
  {
    StripLeadingQualifier("main");
  }

  /** ... and from inside a method's receiver. */
  lemma FunNameOfMethod()
    ensures FunName(Func("(*" + PlaceholderQualifier + "T).M", false, false)) == "(*T).M"
  {
    ReceiverQualifierStripped("T).M");
  }

  /** A receiver of the form "(*T)": "(*" followed by the qualifier and a short rest loses the qualifier. */
  lemma ReceiverQualifierStripped(m: string)
    requires |m| < |PlaceholderQualifier|
    ensures StripQualifier("(*" + PlaceholderQualifier + m) == "(*" + m
  {
    var u := ['*'] + (PlaceholderQualifier + m);
    StarQualifierStripped(m);
    MismatchAt(['('] + u, 0, 0);
    StripKeepsHead('(', u);
    PairPrefix('(', '*', PlaceholderQualifier + m);
    ConcatAssoc("(*", PlaceholderQualifier, m);
    PairPrefix('(', '*', m);
  }

  lemma PairPrefix<T>(a: T, b: T, s: seq<T>)
    ensures [a, b] + s == [a] + ([b] + s)
  {
  }

  lemma ConcatAssoc<T>(a: seq<T>, b: seq<T>, c: seq<T>)
    ensures a + b + c == a + (b + c)
  {
  }

  lemma StarQualifierStripped(m: string)
    requires |m| < |PlaceholderQualifier|
    ensures StripQualifier(['*'] + (PlaceholderQualifier + m)) == ['*'] + m
  {
    var t := PlaceholderQualifier + m;
    StripLeadingQualifier(m);
    ShortNameUnchanged(m);
    MismatchAt(['*'] + t, 0, 0);
    StripKeepsHead('*', t);
  }

  /** Deleting an occurrence can join the pieces of a new one: with the name
      "c" + "command-line-arguments." + "ommand-line-arguments.", one pass leaves
      the qualifier itself, so a second pass changes the name again. */
  lemma StripQualifierNotIdempotent()
    ensures var q := PlaceholderQualifier;
      var s := [q[0]] + q + q[1..];
      && StripQualifier(s) == q
      && StripQualifier(StripQualifier(s)) == ""
  {
    var q := PlaceholderQualifier;
    assert q[1] != q[0];
    JoinedOccurrence(q[0], q[1..]);
    StripLeadingQualifier("");
    assert q + "" == q;
  }

  /** One pass over `c + qualifier + tail`, where `c + tail` is the qualifier. */
  lemma JoinedOccurrence(c: char, tail: string)
    requires [c] + tail == PlaceholderQualifier && tail[0] != c
    ensures StripQualifier([c] + PlaceholderQualifier + tail) == PlaceholderQualifier
  {
    var q := PlaceholderQualifier;
    var s := [c] + (q + tail);
    assert [c] + q + tail == s by {
      ConcatAssoc([c], q, tail);
    }
    assert !OccursAt(s, q, 0) by {
      assert s[1] == c && q[1] == tail[0];
      MismatchAt(s, 0, 1);
    }
    assert StripQualifier(s) == [c] + StripQualifier(q + tail) by {
      StripKeepsHead(c, q + tail);
    }
    assert StripQualifier(q + tail) == tail by {
      StripLeadingQualifier(tail);
      ShortNameUnchanged(tail);
    }
  }
}
