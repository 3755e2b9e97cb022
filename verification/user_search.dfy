/** `UserRepository.searchUsers` and `searchUsersInInstitute`: the JPQL
    filters as a predicate over one user, and the result as the set of
    matching ids (the `DISTINCT` makes it a set; page slicing and order are
    left to the database).

    `LIKE` is modelled with its two wildcards, `%` (any run of characters)
    and `_` (exactly one character); the user's query is concatenated into
    the pattern unescaped, so wildcards in it act as wildcards. */
module UserSearch {
  import opened Wrappers
  import opened Text
  import opened Identity

  /** SQL `s LIKE p`. */
  predicate LikeMatch(p: string, s: string)
    decreases |p| + |s|
  {
    if |p| == 0 then |s| == 0
    else if p[0] == '%' then LikeMatch(p[1..], s) || (|s| > 0 && LikeMatch(p, s[1..]))
    else if p[0] == '_' then |s| > 0 && LikeMatch(p[1..], s[1..])
    else |s| > 0 && s[0] == p[0] && LikeMatch(p[1..], s[1..])
  }

  /** No character of `q` is special to `LIKE` (nor the backslash some databases treat as escape). */
  predicate WildcardFree(q: string) {
    Lacks(q, '%') && Lacks(q, '_') && Lacks(q, '\\')
  }

  /** `CONCAT('%', :query, '%')` */
  function ContainsPattern(q: string): string {
    "%" + q + "%"
  }

  lemma {:induction false} PercentMatchesAll(s: string)
    ensures LikeMatch("%", s)
    decreases |s|
  {
    if |s| > 0 {
      PercentMatchesAll(s[1..]);
    }
  }

  /** A wildcard-free prefix followed by `%` matches exactly the strings it starts. */
  lemma {:induction false} PrefixPattern(q: string, s: string)
    requires WildcardFree(q)
    ensures LikeMatch(q + "%", s) <==> StartsWith(s, q)
    decreases |q|
  {
    if |q| == 0 {
      assert q + "%" == "%";
      PercentMatchesAll(s);
    } else {
      assert (q + "%")[0] == q[0];
      assert (q + "%")[1..] == q[1..] + "%";
      if |s| > 0 {
        PrefixPattern(q[1..], s[1..]);
      }
    }
  }

  /** A leading `%` tries every suffix. */
  lemma {:induction false} LeadingPercent(r: string, s: string)
    ensures LikeMatch("%" + r, s) <==> exists k :: 0 <= k <= |s| && LikeMatch(r, s[k..])
    decreases |s|
  {
    assert ("%" + r)[1..] == r;
    assert s[0..] == s;
    if |s| > 0 {
      LeadingPercent(r, s[1..]);
      if exists k :: 0 <= k <= |s[1..]| && LikeMatch(r, s[1..][k..]) {
        var k :| 0 <= k <= |s[1..]| && LikeMatch(r, s[1..][k..]);
        assert s[1..][k..] == s[k + 1..];
      }
      if exists k :: 0 <= k <= |s| && LikeMatch(r, s[k..]) {
        var k :| 0 <= k <= |s| && LikeMatch(r, s[k..]);
        if k > 0 {
          assert s[k..] == s[1..][k - 1..];
        }
      }
    }
  }

  /** For a query without wildcards, `LIKE '%' || q || '%'` is substring search. */
  lemma ContainsPatternIsSubstring(q: string, s: string)
    requires WildcardFree(q)
    ensures LikeMatch(ContainsPattern(q), s) <==> Contains(s, q)
  {
    assert ContainsPattern(q) == "%" + (q + "%");
    LeadingPercent(q + "%", s);
    forall k | 0 <= k <= |s|
      ensures LikeMatch(q + "%", s[k..]) <==> StartsWith(s[k..], q)
    {
      PrefixPattern(q, s[k..]);
    }
  }

  /** The optional filters of a search; `None` is a null parameter. */
  datatype Filter = Filter(query: string, role: Option<string>, active: Option<bool>, accountLocked: Option<bool>)

  /** The `WHERE` clause for one user (institute restriction aside). */
  predicate Matches(dir: Directory, u: User, f: Filter) {
    var p := Lower(ContainsPattern(f.query));
    && (LikeMatch(p, Lower(u.name)) || LikeMatch(p, Lower(u.email)))
    && (f.role.None? || f.role.value in RoleNames(dir, u))
    && (f.active.None? || u.active == f.active.value)
    && (f.accountLocked.None? || u.accountLocked == f.accountLocked.value)
    && !u.deleted
  }

  /** `searchUsers`, or `searchUsersInInstitute` when an institute is given. */
  function Search(dir: Directory, institute: Option<Id>, f: Filter): (ids: set<Id>)
    ensures forall id :: id in ids <==>
              id in dir.users && Matches(dir, dir.users[id], f)
              && (institute.None? || dir.users[id].institute == institute)
  {
    set id | id in dir.users && Matches(dir, dir.users[id], f)
                             && (institute.None? || dir.users[id].institute == institute)
  }

  /** Lower-casing a pattern keeps its wildcards and adds none. */
  lemma LowerKeepsWildcardFree(q: string)
    requires WildcardFree(q)
    ensures WildcardFree(Lower(q))
  {
  }

  lemma LowerContainsPattern(q: string)
    ensures Lower(ContainsPattern(q)) == ContainsPattern(Lower(q))
  {
  }

  /** For a query free of wildcards, the text filter is a case-insensitive
      substring test on the name or the email. */
  lemma PlainQueryIsSubstring(dir: Directory, u: User, f: Filter)
    requires WildcardFree(f.query)
    ensures Matches(dir, u, f) <==>
              (Contains(Lower(u.name), Lower(f.query)) || Contains(Lower(u.email), Lower(f.query)))
              && (f.role.None? || f.role.value in RoleNames(dir, u))
              && (f.active.None? || u.active == f.active.value)
              && (f.accountLocked.None? || u.accountLocked == f.accountLocked.value)
              && !u.deleted
  {
    LowerKeepsWildcardFree(f.query);
    LowerContainsPattern(f.query);
    ContainsPatternIsSubstring(Lower(f.query), Lower(u.name));
    ContainsPatternIsSubstring(Lower(f.query), Lower(u.email));
  }

  /** An empty query lists every non-deleted user the other filters admit. */
  lemma EmptyQueryMatchesAll(dir: Directory, u: User, f: Filter)
    requires f.query == ""
    ensures Matches(dir, u, f) <==>
              (f.role.None? || f.role.value in RoleNames(dir, u))
              && (f.active.None? || u.active == f.active.value)
              && (f.accountLocked.None? || u.accountLocked == f.accountLocked.value)
              && !u.deleted
  {
    PlainQueryIsSubstring(dir, u, f);
    assert StartsWith(Lower(u.name)[0..], Lower(f.query));
  }

  /** A user-typed `_` is a one-character wildcard: a query `a_c` finds
      every three-letter name `a x c`, although only the name `a_c` itself
      contains the query. */
  lemma UnderscoreIsWildcard(a: char, x: char, c: char)
    requires a != '%' && a != '_' && c != '%' && c != '_'
    ensures LikeMatch(ContainsPattern([a, '_', c]), [a, x, c])
    ensures Contains([a, x, c], [a, '_', c]) <==> x == '_'
  {
    var q, s := [a, '_', c], [a, x, c];
    assert ContainsPattern(q) == "%" + q + "%";
    assert ("%" + q + "%")[1..] == q + "%";
    assert (q + "%")[1..] == ['_', c, '%'] && s[1..] == [x, c];
    assert ['_', c, '%'][1..] == [c, '%'] && [x, c][1..] == [c];
    assert [c, '%'][1..] == "%" && [c][1..] == "";
    assert LikeMatch("%", "");
    assert LikeMatch([c, '%'], [c]);
    assert LikeMatch(['_', c, '%'], [x, c]);
    assert LikeMatch(q + "%", s);
    if Contains(s, q) {
      var i :| 0 <= i <= |s| && StartsWith(s[i..], q);
      assert i == 0 && s[1] == q[1];
    }
    if x == '_' {
      assert StartsWith(s[0..], q);
    }
  }
}
