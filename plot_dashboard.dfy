/**
  `tag_filter` of plot_dashboard.py: the optional `dataset_tag IN (...)` condition that the
  dashboard queries append, with one `?` placeholder per selected tag.
 */
module PlotDashboard {
  import opened Wrappers
  import opened Text

  /** A SQL fragment and the values bound to its placeholders. */
  datatype Filter = Filter(cond: string, params: seq<string>)

  /** `[t for t in tags if t]`. */
  function NonEmptyTags(tags: seq<string>): (r: seq<string>)
    ensures |r| <= |tags|
    ensures forall i :: 0 <= i < |r| ==> r[i] != [] && r[i] in tags
  {
    if tags == [] then [] else (if tags[0] != [] then [tags[0]] else []) + NonEmptyTags(tags[1..])
  }

  /** `"(" + ",".join(["?"] * n) + ")"`. */
  function Placeholders(n: nat): string {
    "(" + Join(",", seq(n, _ => "?")) + ")"
  }

  /** `tag_filter(alias, tags)`; `None` and the empty tuple both mean no tags. */
  function TagFilter(alias: string, tags: Option<seq<string>>): (r: Filter)
    ensures (r.cond == []) == (r.params == [])
    ensures forall i :: 0 <= i < |r.params| ==> r.params[i] != []
  {
    var vals := NonEmptyTags(tags.GetOr([]));
    if vals == [] then Filter("", [])
    else Filter(Condition(alias, |vals|), vals)
  }

  /** `f"AND {alias}.dataset_tag IN {in_sql}"` for `n` placeholders. */
  function Condition(alias: string, n: nat): string {
    "AND " + alias + ".dataset_tag IN " + Placeholders(n)
  }

  /** Number of occurrences of `c` in `s`. */
  function Occurrences(s: string, c: char): nat {
    if s == [] then 0 else (if s[0] == c then 1 else 0) + Occurrences(s[1..], c)
  }

  /** `a` is `b` with some elements left out, the rest in the same order. */
  predicate IsSubsequence(a: seq<string>, b: seq<string>)
    decreases |b|
  {
    a == [] || (b != [] && if a[0] == b[0] then IsSubsequence(a[1..], b[1..]) else IsSubsequence(a, b[1..]))
  }

  /** No parameter is an empty tag. */
  lemma {:induction false} NonEmptyTagsAreNonEmpty(tags: seq<string>)
    ensures forall k :: 0 <= k < |NonEmptyTags(tags)| ==> NonEmptyTags(tags)[k] != []
  {
    if tags != [] {
      NonEmptyTagsAreNonEmpty(tags[1..]);
    }
  }

  /** The parameters keep the order of the tags. */
  lemma {:induction false} NonEmptyTagsInOrder(tags: seq<string>)
    ensures IsSubsequence(NonEmptyTags(tags), tags)
  {
    if tags != [] {
      var rest := NonEmptyTags(tags[1..]);
      NonEmptyTagsInOrder(tags[1..]);
      if tags[0] != [] {
        assert NonEmptyTags(tags) == [tags[0]] + rest;
        assert NonEmptyTags(tags)[1..] == rest;
      } else if rest != [] {
        NonEmptyTagsAreNonEmpty(tags[1..]);
        assert NonEmptyTags(tags) == rest && rest[0] != tags[0];
      }
    }
  }

  /** Each non-empty tag is a parameter as many times as it is a tag; the empty tag never is. */
  lemma {:induction false} NonEmptyTagsCount(tags: seq<string>)
    ensures multiset(NonEmptyTags(tags)) == multiset(tags)[[] := 0]
  {
    if tags != [] {
      NonEmptyTagsCount(tags[1..]);
      assert tags == [tags[0]] + tags[1..];
    }
  }

  /** No condition and no parameters exactly when no tag is non-empty. */
  lemma {:induction false} TagFilterEmptyIff(alias: string, tags: Option<seq<string>>)
    ensures TagFilter(alias, tags) == Filter("", []) <==> forall k :: 0 <= k < |tags.GetOr([])| ==> tags.GetOr([])[k] == []
  {
    var ts := tags.GetOr([]);
    NoNonEmptyIff(ts);
    var f := TagFilter(alias, tags);
    if NonEmptyTags(ts) != [] {
      assert f.cond[..4] == "AND ";
    }
  }

  lemma {:induction false} NoNonEmptyIff(tags: seq<string>)
    ensures NonEmptyTags(tags) == [] <==> forall k :: 0 <= k < |tags| ==> tags[k] == []
  {
    if tags != [] {
      NoNonEmptyIff(tags[1..]);
      assert forall k :: 1 <= k < |tags| ==> tags[k] == tags[1..][k - 1];
    }
  }

  lemma {:induction false} OccurrencesAppend(a: string, b: string, c: char)
    ensures Occurrences(a + b, c) == Occurrences(a, c) + Occurrences(b, c)
  {
    if a == [] {
      assert a + b == b;
    } else {
      assert (a + b)[1..] == a[1..] + b;
      OccurrencesAppend(a[1..], b, c);
    }
  }

  /** `n` question marks separated by commas: one mark per parameter, `2n - 1` characters. */
  lemma {:induction false} MarksList(n: nat)
    requires n >= 1
    ensures var j := Join(",", seq(n, _ => "?"));
      Occurrences(j, '?') == n && |j| == 2 * n - 1
  {
    if n > 1 {
      MarksList(n - 1);
      assert seq(n, _ => "?") == ["?"] + seq(n - 1, _ => "?");
      JoinCons(",", "?", seq(n - 1, _ => "?"));
      OccurrencesAppend("?,", Join(",", seq(n - 1, _ => "?")), '?');
    }
  }

  /** The placeholder list for `n >= 1` parameters: `(`, `n` marks separated by commas, `)`. */
  lemma PlaceholdersShape(n: nat)
    requires n >= 1
    ensures var p := Placeholders(n);
      |p| == 2 * n + 1 && p[0] == '(' && p[2 * n] == ')' && Occurrences(p, '?') == n
  {
    var j := Join(",", seq(n, _ => "?"));
    MarksList(n);
    OccurrencesAppend("(", j, '?');
    OccurrencesAppend("(" + j, ")", '?');
  }

  /**
    The condition is `AND <alias>.dataset_tag IN ` followed by the placeholder list, which
    holds exactly one `?` per parameter; for an alias without `?`, so does the whole condition.
   */
  lemma ConditionShape(alias: string, n: nat)
    requires n >= 1
    ensures var cond := Condition(alias, n);
      var head := "AND " + alias + ".dataset_tag IN ";
      |cond| == |head| + 2 * n + 1 && cond[..|head|] == head
      && cond[|head|] == '(' && cond[|cond| - 1] == ')'
      && ('?' !in alias ==> Occurrences(cond, '?') == n)
  {
    var head := "AND " + alias + ".dataset_tag IN ";
    var p := Placeholders(n);
    PlaceholdersShape(n);
    var cond := Condition(alias, n);
    assert cond == head + p;
    assert cond[..|head|] == head;
    assert cond[|head|] == p[0] && cond[|cond| - 1] == p[2 * n];
    if '?' !in alias {
      assert '?' !in head;
      NoOccurrences(head, '?');
      OccurrencesAppend(head, p, '?');
    }
  }

  /** With at least one non-empty tag, the condition has one placeholder per parameter. */
  lemma TagFilterPlaceholders(alias: string, tags: Option<seq<string>>)
    requires TagFilter(alias, tags).params != []
    ensures var f := TagFilter(alias, tags);
      f.cond == Condition(alias, |f.params|) && ('?' !in alias ==> Occurrences(f.cond, '?') == |f.params|)
  {
    ConditionShape(alias, |TagFilter(alias, tags).params|);
  }

  lemma {:induction false} NoOccurrences(s: string, c: char)
    requires c !in s
    ensures Occurrences(s, c) == 0
  {
    if s != [] {
      assert s[0] != c;
      assert c !in s[1..];
      NoOccurrences(s[1..], c);
    }
  }
}
