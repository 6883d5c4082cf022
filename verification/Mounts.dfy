/**
 Which mounted backend a label belongs to: the step back from the upper bound in the sorted mounts
 against a scan for a mount that is the label or an ancestor of it.
 */
module Mounts {
  import opened TreeModel

  // ---- byte order ----

  predicate Before(a: string, b: string) {
    b != "" && (a == "" || a[0] < b[0] || (a[0] == b[0] && Before(a[1..], b[1..])))
  }

  lemma {:induction false} BeforeTotal(a: string, b: string)
    ensures Before(a, b) || a == b || Before(b, a)
    ensures !(Before(a, b) && Before(b, a)) && !(a == b && Before(a, b))
  {
    if a != "" && b != "" && a[0] == b[0] {
      BeforeTotal(a[1..], b[1..]);
      assert a == [a[0]] + a[1..] && b == [b[0]] + b[1..];
    }
  }

  lemma {:induction false} BeforeTransitive(a: string, b: string, c: string)
    requires Before(a, b) && Before(b, c)
    ensures Before(a, c)
  {
    if a != "" && a[0] == b[0] && b[0] == c[0] { BeforeTransitive(a[1..], b[1..], c[1..]); }
  }

  /** A common stem does not matter to the order. */
  lemma {:induction false} BeforeBehind(stem: string, a: string, b: string)
    ensures Before(stem + a, stem + b) <==> Before(a, b)
  {
    if stem == "" {
      assert stem + a == a && stem + b == b;
    } else {
      BeforeBehind(stem[1..], a, b);
      assert (stem + a)[1..] == stem[1..] + a && (stem + b)[1..] == stem[1..] + b;
    }
  }

  lemma ExtensionAfter(stem: string, longer: string)
    requires stem < longer
    ensures Before(stem, longer)
  {
    BeforeBehind(stem, "", longer[|stem|..]);
    assert stem + "" == stem && stem + longer[|stem|..] == longer;
  }

  /** What lies between a stem and one of its extensions extends the stem as well. */
  lemma {:induction false} Between(stem: string, x: string, longer: string)
    requires stem <= longer && !Before(x, stem) && !Before(longer, x)
    ensures stem <= x
  {
    if stem != "" {
      if x != "" && x[0] == stem[0] {
        Between(stem[1..], x[1..], longer[1..]);
        assert x == [x[0]] + x[1..] && stem == [stem[0]] + stem[1..];
      }
    }
  }

  // ---- the lookup ----

  ghost predicate Sorted(mounts: seq<Label>) {
    forall i, j :: 0 <= i < j < |mounts| ==> Before(mounts[i], mounts[j])
  }

  /** The first mount behind the label. */
  function UpperBound(mounts: seq<Label>, labelRule: Label): (u: nat)
    ensures u <= |mounts|
  {
    if mounts == [] || Before(labelRule, mounts[0]) then 0 else 1 + UpperBound(mounts[1..], labelRule)
  }

  lemma {:induction false} UpperBoundSplits(mounts: seq<Label>, labelRule: Label)
    requires Sorted(mounts)
    ensures forall i :: 0 <= i < |mounts| ==> (UpperBound(mounts, labelRule) <= i <==> Before(labelRule, mounts[i]))
  {
    if mounts != [] {
      if Before(labelRule, mounts[0]) {
        forall i | 0 < i < |mounts| ensures Before(labelRule, mounts[i]) {
          BeforeTransitive(labelRule, mounts[0], mounts[i]);
        }
      } else {
        UpperBoundSplits(mounts[1..], labelRule);
        assert forall i :: 1 <= i < |mounts| ==> mounts[i] == mounts[1..][i - 1];
      }
    }
  }

  /** The mount is the label itself or an ancestor at a '/'. */
  predicate Covers(mount: Label, labelRule: Label) {
    mount == labelRule || mount + "/" <= labelRule
  }

  /** One step back from the upper bound; None for the root backend. */
  function Relevant(mounts: seq<Label>, labelRule: Label): (r: Option<nat>)
    ensures r.Some? ==> r.value < |mounts|
  {
    var u := UpperBound(mounts, labelRule);
    if u > 0 && Covers(mounts[u - 1], labelRule) then Some(u - 1) else None
  }

  /** How much of the label leads to the mount, with the '/' behind it. */
  function CutAt(mounts: seq<Label>, labelRule: Label): (n: nat)
    ensures n <= |labelRule|
  {
    match Relevant(mounts, labelRule)
    case None => 0
    case Some(k) => if mounts[k] == labelRule then |labelRule| else |mounts[k]| + 1
  }

  /** `longer` extends `stem`, the next character being '/' or one below it. */
  predicate LowExtension(stem: Label, longer: Label) {
    stem < longer && longer[|stem|] <= '/'
  }

  ghost predicate Separated(mounts: seq<Label>) {
    forall i, j :: 0 <= i < |mounts| && 0 <= j < |mounts| ==> !LowExtension(mounts[i], mounts[j])
  }

  ghost predicate LookupIsScan(mounts: seq<Label>) {
    forall labelRule: Label, k: nat | k < |mounts| ::
      Covers(mounts[k], labelRule) <==> Relevant(mounts, labelRule) == Some(k)
  }

  lemma CoveredIsNotBefore(mount: Label, labelRule: Label)
    requires Covers(mount, labelRule)
    ensures !Before(labelRule, mount)
  {
    BeforeTotal(mount, labelRule);
    if mount != labelRule { ExtensionAfter(mount, labelRule); }
  }

  /** Only an extension by a low character comes between a mount and a label below it. */
  lemma OnlyLowBetween(mount: Label, x: Label, labelRule: Label)
    requires Covers(mount, labelRule) && Before(mount, x) && !Before(labelRule, x)
    ensures LowExtension(mount, x)
  {
    BeforeTotal(mount, x);
    Between(mount, x, labelRule);
    var n := |mount|;
    assert x == mount + x[n..] && labelRule == mount + labelRule[n..];
    BeforeBehind(mount, labelRule[n..], x[n..]);
    assert labelRule[n] == '/';
  }

  lemma LookupFinds(mounts: seq<Label>, labelRule: Label, k: nat)
    requires Sorted(mounts) && Separated(mounts) && k < |mounts| && Covers(mounts[k], labelRule)
    ensures Relevant(mounts, labelRule) == Some(k)
  {
    UpperBoundSplits(mounts, labelRule);
    CoveredIsNotBefore(mounts[k], labelRule);
    var u := UpperBound(mounts, labelRule);
    if k < u - 1 {
      OnlyLowBetween(mounts[k], mounts[u - 1], labelRule);
    }
  }

  /** A low extension hides the mount it extends from some label. */
  lemma LowExtensionHides(mounts: seq<Label>, i: nat, j: nat)
    requires Sorted(mounts) && i < |mounts| && j < |mounts| && LowExtension(mounts[i], mounts[j])
    ensures exists labelRule :: Covers(mounts[i], labelRule) && Relevant(mounts, labelRule) != Some(i)
  {
    var stem, longer := mounts[i], mounts[j];
    var n := |stem|;
    ExtensionAfter(stem, longer);
    BeforeTotal(stem, longer);
    assert i < j;
    var labelRule := if longer[n] == '/' then longer else stem + "/";
    UpperBoundSplits(mounts, labelRule);
    BeforeTotal(labelRule, longer);
    if longer[n] != '/' {
      assert longer == stem + longer[n..];
      BeforeBehind(stem, longer[n..], "/");
    }
    assert !Before(labelRule, mounts[j]);
    assert Covers(stem, labelRule) && Relevant(mounts, labelRule) != Some(i);
  }

  /** The lookup agrees with the scan on every label exactly when no mount extends another by '/' or below. */
  lemma LookupIsScanExactly(mounts: seq<Label>)
    requires Sorted(mounts)
    ensures LookupIsScan(mounts) <==> Separated(mounts)
  {
    if Separated(mounts) {
      forall labelRule: Label, k: nat | k < |mounts| && Covers(mounts[k], labelRule)
        ensures Relevant(mounts, labelRule) == Some(k)
      {
        LookupFinds(mounts, labelRule, k);
      }
    }
    if LookupIsScan(mounts) {
      forall i, j | 0 <= i < |mounts| && 0 <= j < |mounts| ensures !LowExtension(mounts[i], mounts[j]) {
        if LowExtension(mounts[i], mounts[j]) {
          LowExtensionHides(mounts, i, j);
        }
      }
    }
  }

  // ---- mounting ----

  /** std::map::insert: in order. */
  function Inserted(mounts: seq<Label>, labelRule: Label): seq<Label> {
    var u := UpperBound(mounts, labelRule);
    mounts[..u] + [labelRule] + mounts[u..]
  }

  lemma InsertKeepsSorted(mounts: seq<Label>, labelRule: Label)
    requires Sorted(mounts) && labelRule !in mounts
    ensures Sorted(Inserted(mounts, labelRule))
  {
    UpperBoundSplits(mounts, labelRule);
    var u := UpperBound(mounts, labelRule);
    forall i | 0 <= i < u ensures Before(mounts[i], labelRule) {
      BeforeTotal(mounts[i], labelRule);
    }
  }

  function FirstSlash(s: string): Option<nat> {
    if s == "" then None
    else if s[0] == '/' then Some(0)
    else
      var n :- FirstSlash(s[1..]);
      Some(n + 1)
  }

  function LastSlash(s: string): Option<nat> {
    if s == "" then None
    else if s[|s| - 1] == '/' then Some(|s| - 1)
    else LastSlash(s[..|s| - 1])
  }

  lemma {:induction false} FirstSlashIs(s: string)
    ensures match FirstSlash(s)
            case None => '/' !in s
            case Some(n) => n < |s| && s[n] == '/' && '/' !in s[..n]
  {
    if s != "" && s[0] != '/' {
      FirstSlashIs(s[1..]);
      assert s == [s[0]] + s[1..];
      if FirstSlash(s).Some? { assert s[..FirstSlash(s).value] == [s[0]] + s[1..][..FirstSlash(s).value - 1]; }
    }
  }

  lemma {:induction false} LastSlashIs(s: string)
    ensures match LastSlash(s)
            case None => '/' !in s
            case Some(n) => n < |s| && s[n] == '/' && '/' !in s[n + 1..]
  {
    if s != "" && s[|s| - 1] != '/' {
      var init := s[..|s| - 1];
      LastSlashIs(init);
      assert s == init + [s[|s| - 1]];
      if LastSlash(s).Some? { assert s[LastSlash(s).value + 1..] == init[LastSlash(s).value + 1..] + [s[|s| - 1]]; }
    }
  }

  function StripQuery(s: string): string {
    if s == "" || s[0] == '?' then "" else [s[0]] + StripQuery(s[1..])
  }

  /** Reading a C++ string: its end reads as a zero byte, and reading past the end is undefined. */
  function CharAt(s: string, i: nat): Option<char> {
    if i < |s| then Some(s[i]) else if i == |s| then Some(0 as char) else None
  }

  /** The overlap test; None where it reads past the end of a string. */
  function LabelRuleOverlap(rule1: Label, rule2: Label): Option<bool> {
    var s1, s2 := StripQuery(rule1), StripQuery(rule2);
    if s1 == "" || s2 == "" || s1 == s2 then Some(true)
    else
      match (LastSlash(s1), LastSlash(s2))
      case (None, None) => None
      case (Some(a), None) => OverlapFrom(s1, s2, a)
      case (None, Some(b)) => OverlapFrom(s1, s2, b)
      case (Some(a), Some(b)) => OverlapFrom(s1, s2, if a < b then a else b)
  }

  function OverlapFrom(s1: string, s2: string, slash: nat): Option<bool> {
    var c1 :- CharAt(s1, slash);
    if c1 != '/' then Some(false)
    else
      var c2 :- CharAt(s2, slash);
      if c2 != '/' then Some(false)
      else if s1[..slash] != s2[..slash] then Some(false)
      else
        var rest1, rest2 := s1[slash + 1..], s2[slash + 1..];
        match (FirstSlash(rest1), FirstSlash(rest2))
        case (None, None) => Some(false)
        case (None, Some(b)) => Some(b == |rest1|)
        case (Some(a), None) => Some(a == |rest2|)
        case (Some(_), Some(_)) => Some(false)
  }

  /** One of the two is an ancestor of the other. */
  predicate Related(a: Label, b: Label) {
    Covers(a, b) || Covers(b, a)
  }

  lemma NoQuery(s: string)
    requires '?' !in s
    ensures StripQuery(s) == s
  {
    if s != "" {
      NoQuery(s[1..]);
      assert s == [s[0]] + s[1..];
    }
  }

  lemma {:induction false} FirstSlashAt(stem: string, rest: string)
    requires '/' !in stem && stem + "/" <= rest
    ensures FirstSlash(rest) == Some(|stem|)
  {
    if stem != "" {
      assert rest[0] == stem[0] && stem[1..] + "/" == (stem + "/")[1..];
      FirstSlashAt(stem[1..], rest[1..]);
    }
  }

  lemma {:induction false} LastSlashFrom(s: string, n: nat)
    requires n < |s| && s[n] == '/'
    ensures LastSlash(s).Some? && n <= LastSlash(s).value
  {
    if s[|s| - 1] != '/' { LastSlashFrom(s[..|s| - 1], n); }
  }

  /** What the overlap test sees of an ancestor with a '/' in it. */
  lemma AncestorOverlaps(a: Label, b: Label)
    requires a + "/" <= b && '/' in a
    ensures LastSlash(a).Some? && LastSlash(b).Some? && LastSlash(a).value < LastSlash(b).value
    ensures OverlapFrom(a, b, LastSlash(a).value) == Some(true)
    ensures OverlapFrom(b, a, LastSlash(a).value) == Some(true)
  {
    LastSlashIs(a);
    LastSlashFrom(b, |a|);
    hide LastSlash, FirstSlash;
    var n := LastSlash(a).value;
    var restA, restB := a[n + 1..], b[n + 1..];
    assert restA + "/" <= restB;
    FirstSlashAt(restA, restB);
    FirstSlashIs(restA);
    assert a[..n] == b[..n];
  }

  lemma NoSlashNoOverlap(a: Label, b: Label)
    requires '/' !in a
    ensures LastSlash(a) == None
    ensures forall n: nat :: OverlapFrom(a, b, n) != Some(true) && OverlapFrom(b, a, n) != Some(true)
  {
    LastSlashIs(a);
  }

  lemma OverlapIs(a: Label, b: Label)
    requires '?' !in a && '?' !in b && a != "" && b != "" && a != b
    ensures var n, k := LastSlash(a), LastSlash(b);
            LabelRuleOverlap(a, b) ==
            if n == None && k == None then None
            else if n == None then OverlapFrom(a, b, k.value)
            else if k == None || n.value < k.value then OverlapFrom(a, b, n.value)
            else OverlapFrom(a, b, k.value)
  {
    NoQuery(a);
    NoQuery(b);
    hide OverlapFrom, StripQuery, LastSlash;
  }

  /**
   The test never misses a mount below or above another when both have a '/', and always misses one when
   either has none: "A" and "A/B" count as apart.  (It also calls "a/b" and "a/c/d" overlapping.)
   */
  lemma OverlapSeesRelatedExactly(a: Label, b: Label)
    requires '?' !in a && '?' !in b && a != "" && b != "" && a != b && Related(a, b)
    ensures LabelRuleOverlap(a, b) == Some(true) <==> '/' in a && '/' in b
  {
    OverlapIs(a, b);
    hide LabelRuleOverlap, OverlapFrom, LastSlash;
    if '/' !in a {
      NoSlashNoOverlap(a, b);
    } else if '/' !in b {
      NoSlashNoOverlap(b, a);
    } else if Covers(a, b) {
      AncestorOverlaps(a, b);
    } else {
      AncestorOverlaps(b, a);
    }
  }

  /**
   `a` and `b` share a directory, and the next segment of the deeper `b` has the length of the last one of
   `a`.  With equal segments `a` is an ancestor of `b`.
   */
  ghost predicate Twin(a: Label, b: Label) {
    exists dir, x, y, rest :: IsTwin(a, b, dir, x, y, rest)
  }

  predicate IsTwin(a: Label, b: Label, dir: string, x: string, y: string, rest: string) {
    a == dir + "/" + x && b == dir + "/" + y + "/" + rest && |x| == |y| && '/' !in x && '/' !in y
  }

  lemma TwinOverlaps(a: Label, b: Label, dir: string, x: string, y: string, rest: string)
    requires IsTwin(a, b, dir, x, y, rest)
    ensures LastSlash(a) == Some(|dir|) && LastSlash(b).Some? && |dir| < LastSlash(b).value
    ensures OverlapFrom(a, b, |dir|) == Some(true) && OverlapFrom(b, a, |dir|) == Some(true)
  {
    LastSlashFrom(a, |dir|);
    LastSlashIs(a);
    LastSlashFrom(b, |dir| + 1 + |y|);
    hide LastSlash;
    assert a[|dir| + 1..] == x && b[|dir| + 1..] == y + "/" + rest;
    LastSlashOf(a, dir, x);
    FirstSlashIs(x);
    FirstSlashAt(y, y + "/" + rest);
    assert a[..|dir|] == dir == b[..|dir|];
  }

  lemma {:induction false} LastSlashOf(a: Label, dir: string, x: string)
    requires a == dir + "/" + x && '/' !in x
    ensures LastSlash(a) == Some(|dir|)
    decreases |x|
  {
    if x != "" {
      var init := x[..|x| - 1];
      assert a[|a| - 1] == x[|x| - 1] && a[..|a| - 1] == dir + "/" + init;
      LastSlashOf(a[..|a| - 1], dir, init);
    }
  }

  lemma OverlapParts(a: Label, b: Label, slash: nat)
    requires OverlapFrom(a, b, slash) == Some(true)
    ensures slash < |a| && slash < |b| && a[slash] == '/' && b[slash] == '/' && a[..slash] == b[..slash]
    ensures var rest1, rest2 := a[slash + 1..], b[slash + 1..];
            || ('/' !in rest1 && |rest1| < |rest2| && rest2[|rest1|] == '/' && '/' !in rest2[..|rest1|])
            || ('/' !in rest2 && |rest2| < |rest1| && rest1[|rest2|] == '/' && '/' !in rest1[..|rest2|])
  {
    FirstSlashIs(a[slash + 1..]);
    FirstSlashIs(b[slash + 1..]);
    hide FirstSlash;
  }

  lemma PartsAreTwin(a: Label, b: Label, slash: nat)
    requires slash < |a| && slash < |b| && a[slash] == '/' && b[slash] == '/' && a[..slash] == b[..slash]
    requires var rest1, rest2 := a[slash + 1..], b[slash + 1..];
             '/' !in rest1 && |rest1| < |rest2| && rest2[|rest1|] == '/' && '/' !in rest2[..|rest1|]
    ensures Twin(a, b)
  {
    var dir, x, n := a[..slash], a[slash + 1..], |a| - slash - 1;
    var y, rest := b[slash + 1..][..n], b[slash + 1..][n + 1..];
    assert b[slash + 1..] == y + "/" + rest;
    assert b == dir + "/" + (y + "/" + rest) == dir + "/" + y + "/" + rest;
    assert IsTwin(a, b, dir, x, y, rest);
  }

  lemma OverlapIsTwin(a: Label, b: Label, slash: nat)
    requires OverlapFrom(a, b, slash) == Some(true)
    ensures Twin(a, b) || Twin(b, a)
  {
    OverlapParts(a, b, slash);
    hide OverlapFrom, Twin;
    if '/' !in a[slash + 1..] && |a| < |b| { PartsAreTwin(a, b, slash); } else { PartsAreTwin(b, a, slash); }
  }

  /** The test compares the lengths of two segments and not the segments. */
  lemma OverlapSeesTwinsExactly(a: Label, b: Label)
    requires '?' !in a && '?' !in b && a != "" && b != "" && a != b
    ensures LabelRuleOverlap(a, b) == Some(true) <==> Twin(a, b) || Twin(b, a)
  {
    NoQuery(a);
    NoQuery(b);
    hide OverlapFrom, StripQuery, IsTwin, LastSlash;
    if Twin(a, b) {
      var dir, x, y, rest :| IsTwin(a, b, dir, x, y, rest);
      TwinOverlaps(a, b, dir, x, y, rest);
    } else if Twin(b, a) {
      var dir, x, y, rest :| IsTwin(b, a, dir, x, y, rest);
      TwinOverlaps(b, a, dir, x, y, rest);
    } else {
      forall slash: nat ensures OverlapFrom(a, b, slash) != Some(true) {
        if OverlapFrom(a, b, slash) == Some(true) { OverlapIsTwin(a, b, slash); }
      }
    }
  }

  lemma {:induction false} QueryIsStripped(path: string, query: string)
    requires '?' !in path
    ensures StripQuery(path + "?" + query) == path == StripQuery(path)
  {
    var s := path + "?" + query;
    if path != "" {
      assert s[0] == path[0] && s[0] in path && s[1..] == path[1..] + "?" + query;
      QueryIsStripped(path[1..], query);
      assert path == [path[0]] + path[1..];
    }
  }

  /** What stands behind a '?' in either rule does not matter to the test. */
  lemma QueriesDoNotMatter(a: Label, p: string, b: Label, q: string)
    requires '?' !in a && '?' !in b
    ensures LabelRuleOverlap(a + "?" + p, b + "?" + q) == LabelRuleOverlap(a, b)
    ensures LabelRuleOverlap(a + "?" + p, b) == LabelRuleOverlap(a, b + "?" + q) == LabelRuleOverlap(a, b)
  {
    QueryIsStripped(a, p);
    QueryIsStripped(b, q);
    hide StripQuery, OverlapFrom, LastSlash;
  }

  predicate SlashBehind(s: string, n: nat) {
    exists i :: n < i < |s| && s[i] == '/'
  }

  lemma LastSlashBehind(s: string, n: nat)
    ensures LastSlash(s).Some? && LastSlash(s).value > n <==> SlashBehind(s, n)
    ensures SlashBehind(s, n) ==> '/' in s
  {
    LastSlashIs(s);
    if SlashBehind(s, n) {
      var i :| n < i < |s| && s[i] == '/';
      LastSlashFrom(s, i);
    }
  }

  /**
   An empty rule overlaps every other, and a rule itself.  The test reads past the end of two others exactly
   when neither has a '/', or only one has and its last '/' lies behind the end of the other.
   */
  lemma OverlapUndefinedExactly(a: Label, b: Label)
    requires '?' !in a && '?' !in b
    ensures a == "" || b == "" || a == b ==> LabelRuleOverlap(a, b) == Some(true)
    ensures LabelRuleOverlap(a, b) == None <==>
            && a != "" && b != "" && a != b
            && (if '/' in a then '/' !in b && SlashBehind(a, |b|) else '/' !in b || SlashBehind(b, |a|))
  {
    NoQuery(a);
    NoQuery(b);
    LastSlashIs(a);
    LastSlashIs(b);
    LastSlashBehind(a, |b|);
    LastSlashBehind(b, |a|);
    hide OverlapFrom, StripQuery, LastSlash, SlashBehind;
    match (LastSlash(a), LastSlash(b))
    case (None, None) =>
    case (Some(n), None) => OverlapReads(a, b, n);
    case (None, Some(n)) => OverlapReads(a, b, n);
    case (Some(n), Some(k)) => OverlapReads(a, b, if n < k then n else k);
  }

  lemma OverlapReads(a: Label, b: Label, slash: nat)
    ensures OverlapFrom(a, b, slash) == None <==>
            slash > |a| || (slash < |a| && a[slash] == '/' && slash > |b|)
  {
  }

  lemma OverlapCallsStrangersRelated()
    ensures LabelRuleOverlap("a/b", "a/c/d") == Some(true) && !Related("a/b", "a/c/d")
  {
    assert IsTwin("a/b", "a/c/d", "a", "b", "c", "d");
    OverlapSeesTwinsExactly("a/b", "a/c/d");
    hide LabelRuleOverlap;
  }

  /** Two names in one directory. */
  lemma SiblingsApart(dir: string, x: string, y: string)
    requires '/' !in x && '/' !in y
    ensures var a, b := dir + "/" + x, dir + "/" + y;
            && LastSlash(a) == LastSlash(b) == Some(|dir|)
            && OverlapFrom(a, b, |dir|) == Some(false) && OverlapFrom(b, a, |dir|) == Some(false)
  {
    var a, b := dir + "/" + x, dir + "/" + y;
    LastSlashOf(a, dir, x);
    LastSlashOf(b, dir, y);
    FirstSlashIs(x);
    FirstSlashIs(y);
    hide LastSlash, FirstSlash;
    assert a[..|dir|] == b[..|dir|] && a[|dir| + 1..] == x && b[|dir| + 1..] == y;
  }

  lemma ApartInOneDirectory(dir: string, x: string, y: string)
    requires '/' !in x && '/' !in y && x != y
    requires '?' !in dir + "/" + x && '?' !in dir + "/" + y
    ensures LabelRuleOverlap(dir + "/" + x, dir + "/" + y) == Some(false)
  {
    var a, b := dir + "/" + x, dir + "/" + y;
    SiblingsApart(dir, x, y);
    NoQuery(a);
    NoQuery(b);
    assert a[|dir| + 1..] == x && b[|dir| + 1..] == y;
    hide LastSlash, StripQuery, OverlapFrom;
  }

  /**
   Two mounts that mounting accepts and the lookup confuses: "x/zoo" and "x/zoo-a", or any two names in one
   directory of which one extends the other by a character below '/'.
   */
  lemma AcceptedYetHiding(dir: string, x: string, ext: string)
    requires '/' !in x && '/' !in ext && ext != "" && ext[0] < '/'
    requires '?' !in dir + "/" + x && '?' !in dir + "/" + (x + ext)
    ensures var stem, longer := dir + "/" + x, dir + "/" + (x + ext);
            && LabelRuleOverlap(stem, longer) == Some(false) && LabelRuleOverlap(longer, stem) == Some(false)
            && LowExtension(stem, longer)
  {
    assert x + ext != x;
    ApartInOneDirectory(dir, x, x + ext);
    ApartInOneDirectory(dir, x + ext, x);
    hide LabelRuleOverlap;
    var stem, longer := dir + "/" + x, dir + "/" + (x + ext);
    assert longer == stem + ext;
  }
}
