/** Full fan names, and when they identify a fan. */
module Naming {
  import opened Platform

  function FullName(subsystem: string, fan: string): string {
    subsystem + "-" + fan
  }

  /** Two different subsystems can have equally named fans exactly when the name of one
      of them, followed by a dash, begins the name of the other. */
  lemma NamesCollideExactly(s: string, t: string)
    requires s != t
    ensures (exists f, g :: f != "" && g != "" && FullName(s, f) == FullName(t, g)) <==> s + "-" <= t || t + "-" <= s
  {
    if f, g :| FullName(s, f) == FullName(t, g) {
      NamesNested(s, f, t, g);
    }
    if s + "-" <= t {
      NestedCollides(s, t);
    }
    if t + "-" <= s {
      NestedCollides(t, s);
    }
  }

  lemma NamesNested(s: string, f: string, t: string, g: string)
    requires s != t && FullName(s, f) == FullName(t, g)
    ensures s + "-" <= t || t + "-" <= s
  {
    var full := FullName(s, f);
    assert full[..|s|] == s && full[|s|] == '-';
    assert full[..|t|] == t && full[|t|] == '-';
    if |s| < |t| {
      assert s + "-" == full[..|s| + 1];
      assert t[..|s| + 1] == full[..|s| + 1];
    } else if |t| < |s| {
      assert t + "-" == full[..|t| + 1];
      assert s[..|t| + 1] == full[..|t| + 1];
    }
  }

  lemma NestedCollides(s: string, t: string)
    requires s + "-" <= t
    ensures exists f, g :: f != "" && g != "" && FullName(s, f) == FullName(t, g)
    ensures exists f, g :: f != "" && g != "" && FullName(t, f) == FullName(s, g)
  {
    var g := "1";
    var f := t[|s| + 1..] + "-" + g;
    assert t == (s + "-") + t[|s| + 1..];
    assert FullName(s, f) == FullName(t, g);
  }

  /** Splitting at the first dash recovers both parts when subsystem names hold none. */
  lemma NameSplits(s: string, f: string, t: string, g: string)
    requires '-' !in s && '-' !in t
    ensures FullName(s, f) == FullName(t, g) <==> s == t && f == g
  {
    NoDashNoNesting(s, t);
    NoDashNoNesting(t, s);
    if FullName(s, f) == FullName(t, g) {
      if s != t {
        NamesNested(s, f, t, g);
        assert false;
      }
      assert FullName(s, f)[|s| + 1..] == f && FullName(t, g)[|t| + 1..] == g;
    }
  }

  lemma NoDashNoNesting(s: string, t: string)
    requires '-' !in t
    ensures !(s + "-" <= t)
  {
    assert (s + "-")[|s|] == '-';
    assert forall c :: c in s + "-" && s + "-" <= t ==> c in t;
  }

  lemma SameSubsystem(s: string, f: string, g: string)
    requires FullName(s, f) == FullName(s, g)
    ensures f == g
  {
    assert FullName(s, f)[|s| + 1..] == f && FullName(s, g)[|s| + 1..] == g;
  }

  function DescribedFans(yaml: Yaml, subsystem: string): set<YamlFan> {
    set fan | fan in AllFans(Frus(yaml, subsystem))
  }

  function DescribedNames(yaml: Yaml, subsystem: string): set<string> {
    set fan | fan in AllFans(Frus(yaml, subsystem)) :: FullName(subsystem, fan.name)
  }

  ghost predicate FanNamesDistinct(fans: seq<YamlFan>) {
    forall i, j :: 0 <= i < j < |fans| ==> fans[i].name != fans[j].name
  }

  /** Distinct fan names within each description, and no full name in two descriptions. */
  ghost predicate NamesDistinct(yaml: Yaml) {
    && (forall s :: FanNamesDistinct(AllFans(Frus(yaml, s))))
    && (forall s, t :: s != t ==> DescribedNames(yaml, s) !! DescribedNames(yaml, t))
  }

  /** The uniqueness that the indexes rest on follows from names alone: distinct fan names
      within each loadable subsystem, and no loadable name that continues another with a dash. */
  lemma NamesDistinctFromNaming(yaml: Yaml)
    requires forall s :: FanNamesDistinct(AllFans(Frus(yaml, s)))
    requires forall s, t :: yaml(s).Loaded? && yaml(t).Loaded? && s != t ==> !(s + "-" <= t)
    ensures NamesDistinct(yaml)
  {
    forall s, t | s != t ensures DescribedNames(yaml, s) !! DescribedNames(yaml, t) {
      forall full | full in DescribedNames(yaml, s) && full in DescribedNames(yaml, t) ensures false {
        var f :| f in AllFans(Frus(yaml, s)) && FullName(s, f.name) == full;
        var g :| g in AllFans(Frus(yaml, t)) && FullName(t, g.name) == full;
        NamesNested(s, f.name, t, g.name);
      }
    }
  }
}
