/** Domain rules kept as reversed dotted names in a set. */
module RuleSet {
  import opened Bytes

  // ----- dotted names -----

  predicate DotFree(s: string) {
    forall i :: 0 <= i < |s| ==> s[i] != '.'
  }

  predicate AllDotFree(parts: seq<string>) {
    forall i :: 0 <= i < |parts| ==> DotFree(parts[i])
  }

  /** The pieces between the dots; always at least one. */
  function Split(s: string): (r: seq<string>)
    ensures r != [] && AllDotFree(r)
  {
    if s == [] then [[]]
    else
      var t := Split(s[1..]);
      if s[0] == '.' then [[]] + t else [[s[0]] + t[0]] + t[1..]
  }

  function Join(parts: seq<string>): (r: string)
    requires parts != []
  {
    if |parts| == 1 then parts[0] else parts[0] + "." + Join(parts[1..])
  }

  function Reverse(parts: seq<string>): (r: seq<string>)
    ensures |r| == |parts|
    ensures forall i :: 0 <= i < |r| ==> r[i] == parts[|parts| - 1 - i]
  {
    if parts == [] then [] else Reverse(parts[1..]) + [parts[0]]
  }

  lemma {:induction false} JoinOfSplit(s: string)
    ensures Join(Split(s)) == s
  {
    if s != [] {
      JoinOfSplit(s[1..]);
      var t := Split(s[1..]);
      if s[0] == '.' {
        assert ([[]] + t)[1..] == t;
      } else {
        assert ([[s[0]] + t[0]] + t[1..])[1..] == t[1..];
      }
    }
  }

  lemma {:induction false} SplitDotFree(s: string)
    requires DotFree(s)
    ensures Split(s) == [s]
  {
    if s != [] {
      assert DotFree(s[1..]);
      SplitDotFree(s[1..]);
      assert [s[0]] + s[1..] == s;
    }
  }

  lemma {:induction false} SplitAtDot(a: string, b: string)
    requires DotFree(a)
    ensures Split(a + "." + b) == [a] + Split(b)
    decreases |a|
  {
    var s := a + "." + b;
    if a == [] {
      assert s == "." + b;
      assert s[1..] == b;
    } else {
      assert DotFree(a[1..]);
      assert s[1..] == a[1..] + "." + b;
      SplitAtDot(a[1..], b);
      assert [a[0]] + a[1..] == a;
      assert ([a[1..]] + Split(b))[1..] == Split(b);
    }
  }

  lemma {:induction false} SplitOfJoin(parts: seq<string>)
    requires parts != [] && AllDotFree(parts)
    ensures Split(Join(parts)) == parts
    decreases |parts|
  {
    if |parts| == 1 {
      SplitDotFree(parts[0]);
    } else {
      SplitOfJoin(parts[1..]);
      SplitAtDot(parts[0], Join(parts[1..]));
    }
  }

  lemma ReverseTwice(parts: seq<string>)
    ensures Reverse(Reverse(parts)) == parts
  {
  }

  /** How a rule is stored: its labels in reverse order. */
  function Encode(s: string): (r: string) {
    Join(Reverse(Split(s)))
  }

  /** Storing is an involution, so two rules are stored alike only if they are equal. */
  lemma EncodeTwice(s: string)
    ensures Encode(Encode(s)) == s
  {
    var parts := Split(s);
    assert AllDotFree(Reverse(parts));
    SplitOfJoin(Reverse(parts));
    ReverseTwice(parts);
    JoinOfSplit(s);
  }

  lemma EncodeInjective(a: string, b: string)
    ensures Encode(a) == Encode(b) <==> a == b
  {
    EncodeTwice(a);
    EncodeTwice(b);
  }

  lemma EncodeName(labels: seq<string>)
    requires labels != [] && AllDotFree(labels)
    ensures Encode(Join(labels)) == Join(Reverse(labels))
  {
    SplitOfJoin(labels);
  }

  lemma {:induction false} JoinSnoc(parts: seq<string>, last: string)
    requires parts != []
    ensures Join(parts + [last]) == Join(parts) + "." + last
    decreases |parts|
  {
    assert (parts + [last])[1..] == parts[1..] + [last];
    if |parts| > 1 {
      JoinSnoc(parts[1..], last);
      assert parts[0] + "." + (Join(parts[1..]) + "." + last) == parts[0] + "." + Join(parts[1..]) + "." + last;
    }
  }

  /** A rule with a leading dot is stored with a trailing one. */
  lemma EncodeDotted(labels: seq<string>)
    requires labels != [] && AllDotFree(labels)
    ensures Encode("." + Join(labels)) == Join(Reverse(labels)) + "."
  {
    var name := Join(labels);
    assert ("." + name)[1..] == name;
    SplitOfJoin(labels);
    assert Split("." + name) == [[]] + labels;
    assert ([[]] + labels)[1..] == labels;
    assert Reverse([[]] + labels) == Reverse(labels) + [[]];
    JoinSnoc(Reverse(labels), []);
    assert Join(Reverse(labels)) + "." + [] == Join(Reverse(labels)) + ".";
  }

  // ----- the set -----

  /** The first `i` labels have a wildcard entry and no exact one. */
  predicate WildcardAt(entries: set<string>, rev: seq<string>, i: nat) {
    1 <= i <= |rev| && Join(rev[..i]) !in entries && Join(rev[..i]) + "." in entries
  }

  /** The lookup, on labels in reverse order: all of them exactly, or a wildcard after a shorter or equal run. */
  ghost predicate Matches(entries: set<string>, rev: seq<string>) {
    rev != [] && (Join(rev) in entries || exists i :: WildcardAt(entries, rev, i))
  }

  /** A leading `*` label is not counted. */
  function NumLabels(labels: seq<string>): (n: nat) {
    if labels != [] && labels[0] == "*" then |labels| - 1 else |labels|
  }

  /** The labels that are counted, last first. */
  function Counted(labels: seq<string>): (r: seq<string>) {
    Reverse(labels)[..NumLabels(labels)]
  }

  class Trie {
    var entries: set<string>

    constructor ()
      ensures entries == {}
    {
      entries := {};
    }

    method Insert(host: string)
      modifies this
      ensures entries == old(entries) + {Encode(host)}
    {
      var s := Join(Reverse(Split(host)));
      entries := entries + {s};
    }

    /**
     * For the name `*` alone the count is zero, and `length - 1` is no index: the exact entry never matches.
     */
    method Contain(labels: seq<string>) returns (r: bool)
      ensures r <==> if labels == ["*"] then WildcardAt(entries, labels, 1) else Matches(entries, Counted(labels))
    {
      hide Join;
      var length: int := NumLabels(labels);
      var segments := Reverse(labels);
      ghost var rev := if labels == ["*"] then labels else segments[..length];
      var buf: string := [];
      var index := 0;
      while index < |segments|
        invariant 0 <= index <= |segments| && (index < length || index == 0 || labels == ["*"])
        invariant buf == if index == 0 then [] else Join(rev[..index]) + "."
        invariant forall i :: 1 <= i <= index ==> !WildcardAt(entries, rev, i)
      {
        Extended(rev, index);
        buf := buf + segments[index];
        assert buf == Join(rev[..index + 1]);
        if buf in entries {
          if index == length - 1 {
            assert rev[..length] == rev;
            return true;
          }
          buf := buf + ".";
          index := index + 1;
          continue;
        }
        buf := buf + ".";
        if buf in entries {
          assert WildcardAt(entries, rev, index + 1);
          return true;
        }
        if index == length - 1 {
          assert rev[..length] == rev;
          break;
        }
        index := index + 1;
      }
      return false;
    }
  }

  lemma Extended(segments: seq<string>, i: nat)
    requires i < |segments|
    ensures Join(segments[..i + 1]) == (if i == 0 then [] else Join(segments[..i]) + ".") + segments[i]
  {
    if i > 0 {
      assert segments[..i + 1] == segments[..i] + [segments[i]];
      JoinSnoc(segments[..i], segments[i]);
    }
  }

  // ----- what the rules mean -----

  /** The stored form of a list of rules. */
  function Stored(rules: set<string>): (r: set<string>) {
    set rule | rule in rules :: Encode(rule)
  }

  lemma StoredHas(rules: set<string>, rule: string)
    ensures Encode(rule) in Stored(rules) <==> rule in rules
  {
    if Encode(rule) in Stored(rules) {
      var other :| other in rules && Encode(other) == Encode(rule);
      EncodeInjective(rule, other);
    }
  }

  /** Inserting rules one by one stores exactly the set of them. */
  lemma StoredInsert(rules: set<string>, rule: string)
    ensures Stored(rules + {rule}) == Stored(rules) + {Encode(rule)}
  {
  }

  method Build(rules: seq<string>) returns (trie: Trie)
    ensures fresh(trie) && trie.entries == Stored(Elements(rules))
  {
    trie := new Trie();
    for k := 0 to |rules|
      invariant fresh(trie) && trie.entries == Stored(Elements(rules[..k]))
    {
      StoredInsert(Elements(rules[..k]), rules[k]);
      ElementsSnoc(rules[..k], rules[k]);
      assert rules[..k + 1] == rules[..k] + [rules[k]];
      trie.Insert(rules[k]);
    }
    assert rules[..|rules|] == rules;
  }

  /** A dotted rule covers `name` from label `i` on. */
  predicate Covers(rules: set<string>, name: seq<string>, i: nat) {
    i < |name| && "." + Join(name[i..]) in rules
  }

  predicate ListedFrom(rules: set<string>, name: seq<string>, i: nat) {
    i < |name| && Join(name[i..]) in rules
  }

  /** What the rule format promises: an exact rule for the name, or a dotted rule for it or a parent domain. */
  ghost predicate Intended(rules: set<string>, name: seq<string>) {
    ListedFrom(rules, name, 0) || exists i :: 0 <= i < |name| && Covers(rules, name, i)
  }

  lemma {:induction false} ReverseSuffix(name: seq<string>, i: nat)
    requires i <= |name|
    ensures Reverse(name[i..]) == Reverse(name)[..|name| - i]
    decreases i
  {
    if i == 0 {
      assert name[0..] == name;
    } else {
      var r := Reverse(name[1..]);
      assert Reverse(name) == r + [name[0]];
      hide Reverse;
      assert name[i..] == name[1..][i - 1..];
      ReverseSuffix(name[1..], i - 1);
      TakeAppend(r, [name[0]], |name| - i);
    }
  }

  /** Stored prefixes of the reversed name are the rules for its suffixes. */
  lemma PrefixMeaning(rules: set<string>, name: seq<string>, i: nat)
    requires i < |name| && AllDotFree(name)
    ensures var p := Reverse(name)[..|name| - i];
            && (Join(p) in Stored(rules) <==> ListedFrom(rules, name, i))
            && (Join(p) + "." in Stored(rules) <==> Covers(rules, name, i))
  {
    hide Encode, Stored, Join;
    var suffix := name[i..];
    ReverseSuffix(name, i);
    EncodeName(suffix);
    EncodeDotted(suffix);
    StoredHas(rules, Join(suffix));
    StoredHas(rules, "." + Join(suffix));
  }

  /** A dotted rule from label `i` on, whose domain is not also listed exactly. */
  predicate OpenCover(rules: set<string>, name: seq<string>, i: nat) {
    Covers(rules, name, i) && !ListedFrom(rules, name, i)
  }

  lemma WildcardMeaning(rules: set<string>, name: seq<string>, i: nat)
    requires 1 <= i <= |name| && AllDotFree(name)
    ensures WildcardAt(Stored(rules), Reverse(name), i) <==> OpenCover(rules, name, |name| - i)
  {
    hide Join, Stored, Reverse, Covers, ListedFrom;
    PrefixMeaning(rules, name, |name| - i);
  }

  /** The lookup in terms of the rules: a dotted rule counts unless the same domain is also listed exactly. */
  lemma MatchesMeaning(rules: set<string>, name: seq<string>)
    requires AllDotFree(name)
    ensures Matches(Stored(rules), Reverse(name)) <==>
              ListedFrom(rules, name, 0) || exists i :: 0 <= i < |name| && OpenCover(rules, name, i)
  {
    hide Join, Stored, WildcardAt, OpenCover, ListedFrom, Reverse;
    var entries, rev := Stored(rules), Reverse(name);
    if name == [] {
      NothingListed(rules);
    } else {
      PrefixMeaning(rules, name, 0);
      assert rev[..|name|] == rev;
      if i :| WildcardAt(entries, rev, i) {
        InRangeWildcard(entries, rev, i);
        WildcardMeaning(rules, name, i);
        assert OpenCover(rules, name, |name| - i);
      }
      if i :| 0 <= i < |name| && OpenCover(rules, name, i) {
        WildcardMeaning(rules, name, |name| - i);
        assert WildcardAt(entries, rev, |name| - i);
      }
    }
  }

  lemma NothingListed(rules: set<string>)
    ensures !ListedFrom(rules, [], 0) && Reverse([]) == []
  {
  }

  lemma InRangeWildcard(entries: set<string>, rev: seq<string>, i: nat)
    requires WildcardAt(entries, rev, i)
    ensures 1 <= i <= |rev|
  {
  }

  /** Every dotted rule that covers the name is also listed without its dot, and the name itself is not. */
  ghost predicate Shadowed(rules: set<string>, name: seq<string>) {
    && !ListedFrom(rules, name, 0)
    && (exists i :: 0 <= i < |name| && Covers(rules, name, i))
    && (forall i :: 0 <= i < |name| && Covers(rules, name, i) ==> ListedFrom(rules, name, i))
  }

  /** The lookup answers as intended exactly for the names whose covering rules are not all shadowed. */
  lemma MatchesIntended(rules: set<string>, name: seq<string>)
    requires AllDotFree(name)
    ensures (Matches(Stored(rules), Reverse(name)) <==> Intended(rules, name)) <==> !Shadowed(rules, name)
  {
    hide Matches, Covers, ListedFrom, Stored, Reverse;
    MatchesMeaning(rules, name);
    if i :| 0 <= i < |name| && Covers(rules, name, i) && !ListedFrom(rules, name, i) {
      assert OpenCover(rules, name, i);
    }
  }

  /** In particular it does so for every name when no domain is listed both exactly and with a dot. */
  lemma MatchesWithoutOverlap(rules: set<string>, name: seq<string>)
    requires AllDotFree(name) && forall rule :: rule in rules ==> "." + rule !in rules
    ensures Matches(Stored(rules), Reverse(name)) <==> Intended(rules, name)
  {
    MatchesIntended(rules, name);
  }

  /** The exception is real: with `foo.com` and `.foo.com` both listed, `a.foo.com` is not found. */
  lemma ShadowedExample()
    ensures var rules := {"foo.com", ".foo.com"};
            var name := ["a", "foo", "com"];
            Intended(rules, name) && !Matches(Stored(rules), Reverse(name))
  {
    var rules := {"foo.com", ".foo.com"};
    var name := ["a", "foo", "com"];
    assert name[0..] == name && name[1..] == ["foo", "com"] && name[2..] == ["com"];
    assert name[1..][1..] == ["com"];
    assert Join(["foo", "com"]) == "foo" + "." + "com" == "foo.com";
    assert Join(name) == "a" + "." + "foo.com" == "a.foo.com";
    assert "." + "foo.com" == ".foo.com";
    assert Covers(rules, name, 1) && ListedFrom(rules, name, 1);
    assert |"." + Join(name)| == 10 && |"." + "com"| == 4;
    assert !Covers(rules, name, 0) && !Covers(rules, name, 2);
    assert Shadowed(rules, name);
    MatchesIntended(rules, name);
  }

  /** The part of a name that a lookup counts: all labels, or all but a star in front. */
  lemma CountedLabels(labels: seq<string>)
    ensures labels != [] && labels[0] == "*" ==> Counted(labels) == Reverse(labels[1..])
    ensures labels == [] || labels[0] != "*" ==> Counted(labels) == Reverse(labels)
  {
    if labels != [] && labels[0] == "*" {
      ReverseSuffix(labels, 1);
    }
  }

  /** The name `*` alone: only its dotted rule can match, and an exact rule hides that too. */
  lemma StarMeaning(rules: set<string>)
    ensures WildcardAt(Stored(rules), ["*"], 1) <==> ".*" in rules && "*" !in rules
    ensures Intended(rules, ["*"]) <==> ".*" in rules || "*" in rules
  {
    hide Stored;
    var name := ["*"];
    WildcardMeaning(rules, name, 1);
    assert Reverse(name) == name && name[0..] == name && Join(name) == "*" && "." + "*" == ".*";
    assert Covers(rules, name, 0) <==> ".*" in rules;
  }

  /**
   * Building the set from a rule list and looking a name up in it. A name with a star in front of other labels is
   * answered like those labels. The name `*` alone is answered as intended unless it is listed exactly.
   */
  method Lookup(rules: seq<string>, labels: seq<string>) returns (r: bool)
    requires AllDotFree(labels)
    ensures labels == ["*"] ==> ((r <==> Intended(Elements(rules), labels)) <==> "*" !in rules)
    ensures |labels| >= 2 && labels[0] == "*" ==>
              ((r <==> Intended(Elements(rules), labels[1..])) <==> !Shadowed(Elements(rules), labels[1..]))
    ensures labels == [] || labels[0] != "*" ==>
              ((r <==> Intended(Elements(rules), labels)) <==> !Shadowed(Elements(rules), labels))
  {
    hide Matches, Shadowed, Stored, Intended, WildcardAt, Join, Counted;
    var trie := Build(rules);
    r := trie.Contain(labels);
    CountedLabels(labels);
    if labels == ["*"] {
      StarMeaning(Elements(rules));
    } else {
      MatchesIntended(Elements(rules), if labels != [] && labels[0] == "*" then labels[1..] else labels);
    }
  }
}
