/**
 * Topic names and topic filters (util_topic.c, mosquitto_sub_topic_tokenise).
 *
 * The reference definitions work on topic levels, as sections 4.7.1 and 4.7.2
 * of MQTT Version 5.0 do.  The code walks over the characters once; it is
 * shown to decide the same thing.
 */
module Topics {
  import opened Mqtt

  const SLASH: byte := 0x2F
  const PLUS: byte := 0x2B
  const HASH: byte := 0x23
  const DOLLAR: byte := 0x24

  /** A C string: its characters followed by the only NUL. Reading past that
      NUL is an out-of-range index. */
  type CString = s: seq<byte> | s != [] && s[|s| - 1] == 0 && 0 !in s[..|s| - 1] witness [0]

  function Chars(s: CString): seq<byte> { s[..|s| - 1] }

  // ---------- levels ----------

  /** The topic levels: the text between separators. */
  function Levels(s: seq<byte>): (ls: seq<seq<byte>>)
    ensures |ls| >= 1
  {
    if s == [] then [[]]
    else
      var rest := Levels(s[1..]);
      if s[0] == SLASH then [[]] + rest else [[s[0]] + rest[0]] + rest[1..]
  }

  function JoinLevels(ls: seq<seq<byte>>): seq<byte>
    requires ls != []
  {
    if |ls| == 1 then ls[0] else ls[0] + [SLASH] + JoinLevels(ls[1..])
  }

  /** Splitting loses nothing, and no level holds a separator. */
  lemma {:induction false} LevelsJoin(s: seq<byte>)
    ensures JoinLevels(Levels(s)) == s
    ensures forall l | l in Levels(s) :: SLASH !in l
  {
    if s != [] {
      LevelsJoin(s[1..]);
      var rest := Levels(s[1..]);
      assert s == [s[0]] + s[1..];
      if s[0] == SLASH {
        assert Levels(s)[1..] == rest;
      } else {
        assert Levels(s)[1..] == rest[1..];
        assert rest[0] in rest;
      }
    }
  }

  // ---------- what the specification says ----------

  /** A topic filter: "+" and "#" only as whole levels, "#" only last. */
  predicate WildcardsWellPlaced(ls: seq<seq<byte>>) {
    forall i | 0 <= i < |ls| ::
      && (PLUS in ls[i] ==> ls[i] == [PLUS])
      && (HASH in ls[i] ==> ls[i] == [HASH] && i == |ls| - 1)
  }

  predicate ValidFilter(s: seq<byte>) { WildcardsWellPlaced(Levels(s)) }

  predicate ValidTopic(s: seq<byte>) { PLUS !in s && HASH !in s }

  /** Level-by-level matching; "#" also matches the parent level. */
  predicate LevelsMatch(f: seq<seq<byte>>, t: seq<seq<byte>>) {
    if f == [[HASH]] then true
    else if f == [] || t == [] then f == [] && t == []
    else (f[0] == [PLUS] || f[0] == t[0]) && LevelsMatch(f[1..], t[1..])
  }

  /** Section 4.7.1: a filter without "#" matches level for level, where "+" matches
      any one; one that ends with "#" matches what is in front of it and whatever
      follows, be it nothing. */
  lemma {:induction false} MatchExact(f: seq<seq<byte>>, t: seq<seq<byte>>)
    requires f != [] && WildcardsWellPlaced(f)
    ensures var n := |f| - 1;
            LevelsMatch(f, t) <==>
            if f[n] == [0x23] then |t| >= n && forall i | 0 <= i < n :: f[i] == [0x2B] || f[i] == t[i]
            else |t| == |f| && forall i | 0 <= i < |f| :: f[i] == [0x2B] || f[i] == t[i]
  {
    if |f| > 1 && t != [] {
      assert HASH in [HASH] && f[0] != [HASH];
      assert forall i | 0 <= i < |f| - 1 :: f[1..][i] == f[i + 1];
      assert forall i | 0 <= i < |t| - 1 :: t[1..][i] == t[i + 1];
      MatchExact(f[1..], t[1..]);
      assert forall i | 1 <= i < |f| :: f[i] == f[1..][i - 1];
      assert forall i | 1 <= i < |t| :: t[i] == t[1..][i - 1];
    }
  }

  /** A filter that starts with a wildcard matches no topic that starts with "$". */
  predicate TopicMatches(sub: seq<byte>, topic: seq<byte>)
    requires sub != [] && topic != []
  {
    && !(topic[0] == DOLLAR && (sub[0] == PLUS || sub[0] == HASH))
    && LevelsMatch(Levels(sub), Levels(topic))
  }

  // ---------- validity, character by character ----------

  /** Whether the filter from here on is well placed, given the character before. */
  predicate FilterFrom(s: seq<byte>, levelStart: bool) {
    if s == [] then true
    else if s[0] == PLUS then levelStart && (|s| == 1 || s[1] == SLASH) && FilterFrom(s[1..], false)
    else if s[0] == HASH then levelStart && |s| == 1
    else FilterFrom(s[1..], s[0] == SLASH)
  }

  /** A level list that is well placed from its second level on, the first
      level being the rest of a level already begun. */
  predicate WellPlacedRest(ls: seq<seq<byte>>)
    requires ls != []
  {
    PLUS !in ls[0] && HASH !in ls[0] && WildcardsWellPlaced(ls[1..])
  }

  lemma {:induction false} FilterFromLevels(s: seq<byte>)
    ensures FilterFrom(s, true) <==> ValidFilter(s)
    ensures FilterFrom(s, false) <==> WellPlacedRest(Levels(s))
  {
    if s != [] {
      FilterFromLevels(s[1..]);
      var ls, rest := Levels(s), Levels(s[1..]);
      WellPlacedHead(rest);
      WellPlacedHead(ls);
      if s[0] == SLASH {
        assert ls[1..] == rest;
      } else {
        assert ls[1..] == rest[1..] && ls[0] == [s[0]] + rest[0];
        FirstLevelEmpty(s[1..]);
      }
    }
  }

  lemma WellPlacedHead(ls: seq<seq<byte>>)
    requires ls != []
    ensures WildcardsWellPlaced(ls) <==>
            && (PLUS in ls[0] ==> ls[0] == [PLUS])
            && (HASH in ls[0] ==> ls[0] == [HASH] && |ls| == 1)
            && WildcardsWellPlaced(ls[1..])
  {
    if WildcardsWellPlaced(ls) {
      forall i | 0 <= i < |ls[1..]|
        ensures PLUS in ls[1..][i] ==> ls[1..][i] == [PLUS]
        ensures HASH in ls[1..][i] ==> ls[1..][i] == [HASH] && i == |ls[1..]| - 1
      {
        assert ls[1..][i] == ls[i + 1];
      }
    }
    if WildcardsWellPlaced(ls[1..]) {
      forall i | 1 <= i < |ls|
        ensures PLUS in ls[i] ==> ls[i] == [PLUS]
        ensures HASH in ls[i] ==> ls[i] == [HASH] && i == |ls| - 1
      {
        assert ls[i] == ls[1..][i - 1];
      }
    }
  }

  lemma FirstLevelEmpty(s: seq<byte>)
    ensures Levels(s)[0] == [] <==> s == [] || s[0] == SLASH
    ensures |Levels(s)| == 1 && Levels(s)[0] == [] <==> s == []
  {
  }

  /** mosquitto_sub_topic_check. */
  method SubTopicCheck(str: CString) returns (rc: int)
    ensures rc == (if ValidFilter(Chars(str)) && |Chars(str)| <= 65535 then SUCCESS else ERR_INVAL)
  {
    ghost var text := Chars(str);
    FilterFromLevels(text);
    var c: byte := 0;
    var len := 0;
    var i := 0;
    while str[i] != 0
      invariant 0 <= i <= |text| && len == i
      invariant c == (if i == 0 then 0 else str[i - 1])
      invariant FilterFrom(text, true) <==> FilterFrom(text[i..], c == 0 || c == SLASH)
      decreases |text| - i
    {
      assert text[i..][0] == str[i] && text[i..][1..] == text[i + 1..];
      assert str[i + 1] == 0 <==> i + 1 == |text|;
      if str[i] == PLUS {
        if (c != 0 && c != SLASH) || (str[i + 1] != 0 && str[i + 1] != SLASH) { return ERR_INVAL; }
      } else if str[i] == HASH {
        if (c != 0 && c != SLASH) || str[i + 1] != 0 { return ERR_INVAL; }
      }
      len := len + 1;
      c := str[i];
      i := i + 1;
    }
    if len > 65535 { return ERR_INVAL; }
    return SUCCESS;
  }

  /** mosquitto_pub_topic_check. */
  method PubTopicCheck(str: CString) returns (rc: int)
    ensures rc == (if ValidTopic(Chars(str)) && |Chars(str)| <= 65535 then SUCCESS else ERR_INVAL)
  {
    ghost var text := Chars(str);
    var len := 0;
    var i := 0;
    while str[i] != 0
      invariant 0 <= i <= |text| && len == i
      invariant ValidTopic(text[..i])
      decreases |text| - i
    {
      if str[i] == PLUS || str[i] == HASH {
        assert text[i] == str[i];
        return ERR_INVAL;
      }
      len := len + 1;
      i := i + 1;
    }
    assert text[..i] == text;
    if len > 65535 { return ERR_INVAL; }
    return SUCCESS;
  }

  // ---------- the variants for counted strings ----------

  /** A wildcard judged by its neighbours. The character before is remembered in
      a variable that starts as NUL, so a NUL in the string passes for the start
      of a level. */
  predicate FitsAt(s: seq<byte>, i: nat)
    requires i < |s|
  {
    var levelStart := i == 0 || s[i - 1] == SLASH || s[i - 1] == 0;
    && (s[i] == PLUS ==> levelStart && (i + 1 == |s| || s[i + 1] == SLASH))
    && (s[i] == HASH ==> levelStart && i + 1 == |s|)
  }

  predicate NeighboursFit(s: seq<byte>) { forall i | 0 <= i < |s| :: FitsAt(s, i) }

  /** A wildcard right behind a NUL. */
  predicate HiddenAt(s: seq<byte>, i: nat)
    requires i < |s|
  {
    i > 0 && s[i - 1] == 0 && (s[i] == PLUS || s[i] == HASH)
  }

  predicate WildcardBehindNul(s: seq<byte>) { exists i | 0 <= i < |s| :: HiddenAt(s, i) }

  /** mosquitto_sub_topic_check2. */
  method SubTopicCheck2(str: seq<byte>) returns (rc: int)
    ensures rc == (if NeighboursFit(str) && |str| <= 65535 then SUCCESS else ERR_INVAL)
  {
    if |str| > 65535 { return ERR_INVAL; }
    var c: byte := 0;
    for i := 0 to |str|
      invariant c == (if i == 0 then 0 else str[i - 1])
      invariant forall k | 0 <= k < i :: FitsAt(str, k)
    {
      ghost var fits := FitsAt(str, i);
      if str[i] == PLUS {
        if (c != 0 && c != SLASH) || (i < |str| - 1 && str[i + 1] != SLASH) { return ERR_INVAL; }
      } else if str[i] == HASH {
        if (c != 0 && c != SLASH) || i < |str| - 1 { return ERR_INVAL; }
      }
      c := str[i];
    }
    return SUCCESS;
  }

  /** The check finds exactly the valid filters, but for strings with a wildcard
      right behind a NUL; those are never valid, whatever the check says. */
  lemma CountedCheckExact(s: seq<byte>)
    ensures ValidFilter(s) <==> NeighboursFit(s) && !WildcardBehindNul(s)
  {
    if ValidFilter(s) {
      forall i | 0 <= i < |s| ensures FitsAt(s, i) && !HiddenAt(s, i) { FilterAt(s, i); }
    }
    if NeighboursFit(s) && !WildcardBehindNul(s) {
      NeighboursFilter(s, 0);
      assert s[0..] == s;
      FilterFromLevels(s);
    }
  }

  lemma {:induction false} NeighboursFilter(s: seq<byte>, i: nat)
    requires NeighboursFit(s) && !WildcardBehindNul(s) && i <= |s|
    ensures FilterFrom(s[i..], i == 0 || s[i - 1] == SLASH)
    decreases |s| - i
  {
    if i < |s| {
      NeighboursFilter(s, i + 1);
      assert FitsAt(s, i) && !HiddenAt(s, i);
      assert s[i..][0] == s[i] && s[i..][1..] == s[i + 1..];
      assert i + 1 < |s| ==> s[i..][1] == s[i + 1];
      assert s[i] == HASH ==> s[i..] == [HASH];
      if s[i] == PLUS && i + 1 < |s| { AfterPlus(s[i + 1..]); }
    }
  }

  /** Behind a separator it makes no difference what came before that. */
  lemma AfterPlus(s: seq<byte>)
    requires s != [] && s[0] == SLASH
    ensures FilterFrom(s, false) <==> FilterFrom(s, true)
  {
  }

  /** An input on which they differ. */
  lemma NulHidesFault()
    ensures var s: seq<byte> := [0x61, 0, PLUS]; NeighboursFit(s) && !ValidFilter(s)
  {
    var s: seq<byte> := [0x61, 0, PLUS];
    assert forall i | 0 <= i < |s| :: FitsAt(s, i);
    assert HiddenAt(s, 2);
    CountedCheckExact(s);
  }

  /** mosquitto_pub_topic_check2. */
  method PubTopicCheck2(str: seq<byte>) returns (rc: int)
    ensures rc == (if ValidTopic(str) && |str| <= 65535 then SUCCESS else ERR_INVAL)
  {
    if |str| > 65535 { return ERR_INVAL; }
    for i := 0 to |str|
      invariant ValidTopic(str[..i])
    {
      if str[i] == PLUS || str[i] == HASH { return ERR_INVAL; }
    }
    assert str[..|str|] == str;
    return SUCCESS;
  }

  // ---------- matching, character by character ----------

  lemma SingleLevel(c: byte)
    requires c != SLASH
    ensures Levels([c]) == [[c]]
  {
    var rest := Levels([c][1..]);
    assert rest == [[]] && rest[1..] == [];
    assert [c] + rest[0] == [c];
    assert Levels([c]) == [[c]] + rest[1..];
  }

  lemma OnlyHash(s: seq<byte>)
    ensures Levels(s) == [[HASH]] <==> s == [HASH]
  {
    LevelsJoin(s);
    SingleLevel(HASH);
  }

  predicate StartsWild(s: seq<byte>) { s != [] && (s[0] == PLUS || s[0] == HASH) }

  lemma FirstLevelStarts(s: seq<byte>)
    requires !StartsWild(s)
    ensures Levels(s)[0] != [PLUS] && Levels(s)[0] != [HASH]
  {
    if s != [] && s[0] != SLASH { assert Levels(s)[0][0] == s[0]; }
  }

  /** Consuming an equal character. */
  lemma EqualStep(s: seq<byte>, t: seq<byte>)
    requires s != [] && t != [] && s[0] == t[0] && s[0] != PLUS && s[0] != HASH
    requires s[0] != SLASH ==> !StartsWild(s[1..])
    ensures LevelsMatch(Levels(s), Levels(t)) <==> LevelsMatch(Levels(s[1..]), Levels(t[1..]))
  {
    var f, u := Levels(s), Levels(t);
    var f', u' := Levels(s[1..]), Levels(t[1..]);
    FirstLevelStarts(s);
    if s[0] == SLASH {
      assert f[1..] == f' && u[1..] == u';
    } else {
      FirstLevelStarts(s[1..]);
      assert f[1..] == f'[1..] && u[1..] == u'[1..];
      assert f[0][1..] == f'[0] && u[0][1..] == u'[0];
      assert f[0] == u[0] <==> f'[0] == u'[0];
    }
  }

  /** Skipping the topic up to its next separator leaves an empty first level. */
  lemma {:induction false} SkipLevel(t: seq<byte>, k: nat)
    requires k <= |t| && SLASH !in t[..k] && (k == |t| || t[k] == SLASH)
    ensures Levels(t)[0] == t[..k]
    ensures Levels(t)[1..] == Levels(t[k..])[1..] && Levels(t[k..])[0] == []
  {
    if k > 0 {
      assert t[0] in t[..k];
      assert t[1..][..k - 1] == t[..k][1..] && t[1..][k - 1..] == t[k..];
      SkipLevel(t[1..], k - 1);
      assert t[..k] == [t[0]] + t[1..][..k - 1];
      assert Levels(t)[1..] == Levels(t[1..])[1..];
    } else {
      assert t[0..] == t;
    }
  }

  /** Whether the filter from `s` on matches the topic from `t` on. */
  predicate RestMatches(f: seq<byte>, s: nat, u: seq<byte>, t: nat)
    requires s <= |f| && t <= |u|
  {
    LevelsMatch(Levels(f[s..]), Levels(u[t..]))
  }

  lemma WholeMatches(f: seq<byte>, u: seq<byte>)
    ensures RestMatches(f, 0, u, 0) <==> LevelsMatch(Levels(f), Levels(u))
  {
    assert f[0..] == f && u[0..] == u;
  }

  /** Where wildcards stand in a valid filter. */
  lemma FilterAt(f: seq<byte>, i: nat)
    requires ValidFilter(f) && i < |f|
    ensures FilterFrom(f[i..], i == 0 || f[i - 1] == SLASH)
    ensures f[i] == PLUS ==> (i == 0 || f[i - 1] == SLASH) && (i + 1 == |f| || f[i + 1] == SLASH)
    ensures f[i] == HASH ==> (i == 0 || f[i - 1] == SLASH) && i + 1 == |f|
    decreases i
  {
    if i == 0 {
      FilterFromLevels(f);
      assert f[0..] == f;
    } else {
      FilterAt(f, i - 1);
      assert f[i - 1..][1..] == f[i..];
    }
    if i + 1 < |f| { assert f[i..][1] == f[i + 1]; }
  }

  lemma EqualAt(f: seq<byte>, s: nat, u: seq<byte>, t: nat)
    requires ValidFilter(f) && s < |f| && t < |u| && f[s] == u[t] && f[s] != PLUS && f[s] != HASH
    ensures RestMatches(f, s, u, t) <==> RestMatches(f, s + 1, u, t + 1)
  {
    assert f[s..][1..] == f[s + 1..] && u[t..][1..] == u[t + 1..];
    if s + 1 < |f| { FilterAt(f, s + 1); }
    EqualStep(f[s..], u[t..]);
  }

  /** Consuming "+" together with one whole topic level. */
  lemma PlusAt(f: seq<byte>, s: nat, u: seq<byte>, from: nat, t: nat)
    requires s < |f| && f[s] == PLUS && (s + 1 == |f| || f[s + 1] == SLASH)
    requires from <= t <= |u| && SLASH !in u[from..t] && (t == |u| || u[t] == SLASH)
    ensures RestMatches(f, s, u, from) <==> RestMatches(f, s + 1, u, t)
  {
    assert f[s..][1..] == f[s + 1..];
    assert u[from..][..t - from] == u[from..t] && u[from..][t - from..] == u[t..];
    SkipLevel(u[from..], t - from);
    FirstLevelEmpty(f[s + 1..]);
    var l := Levels(f[s..]);
    assert l[0] == [PLUS] && l[1..] == Levels(f[s + 1..])[1..];
  }

  lemma HashAt(f: seq<byte>, s: nat, u: seq<byte>, t: nat)
    requires s + 1 == |f| && f[s] == HASH && t <= |u|
    ensures RestMatches(f, s, u, t)
  {
    assert f[s..] == [HASH];
    SingleLevel(HASH);
  }

  /** Different characters, the filter's not a wildcard: only the parent-level
      rule can still make a match. */
  lemma MismatchAt(f: seq<byte>, s: nat, u: seq<byte>, t: nat)
    requires s < |f| && f[s] != PLUS && f[s] != HASH
    requires t == |u| || (t < |u| && f[s] != u[t])
    ensures RestMatches(f, s, u, t) <==> t == |u| && s + 2 == |f| && f[s] == SLASH && f[s + 1] == HASH
  {
    var fs, ut := f[s..], u[t..];
    var l, m := Levels(fs), Levels(ut);
    assert l[0] != [PLUS] by { FirstLevelStarts(fs); }
    assert l != [[HASH]] by { OnlyHash(fs); }
    if f[s] == SLASH {
      assert l[0] == [] && l[1..] == Levels(f[s + 1..]) by { assert fs[1..] == f[s + 1..]; }
      OnlyHash(f[s + 1..]);
      assert f[s + 1..] == [HASH] <==> s + 2 == |f| && f[s + 1] == HASH;
      FirstLevelEmpty(ut);
      if t == |u| {
        assert m == [[]] && m[1..] == [];
        assert LevelsMatch(l[1..], m[1..]) <==> l[1..] == [[HASH]];
      }
    } else {
      assert l[0][0] == f[s];
      if t < |u| && u[t] != SLASH { assert m[0][0] == u[t]; }
    }
  }

  /** "foo/#" matches "foo". */
  lemma ParentAt(f: seq<byte>, s: nat, u: seq<byte>, t: nat)
    requires ValidFilter(f) && s + 3 == |f| && f[s + 1] == SLASH && f[s + 2] == HASH
    requires t + 1 == |u| && f[s] == u[t] && f[s] != PLUS && f[s] != HASH
    ensures RestMatches(f, s, u, t)
  {
    EqualAt(f, s, u, t);
    MismatchAt(f, s + 1, u, t + 1);
  }

  lemma EndAt(f: seq<byte>, u: seq<byte>, t: nat)
    requires t <= |u|
    ensures RestMatches(f, |f|, u, t) <==> t == |u|
  {
    FirstLevelEmpty(u[t..]);
    var l, m := Levels(f[|f|..]), Levels(u[t..]);
    assert l == [[]] && l[1..] == [];
    assert LevelsMatch(l[1..], m[1..]) <==> |m| == 1;
  }

  lemma PlusLastAt(f: seq<byte>, s: nat, u: seq<byte>)
    requires s + 1 == |f| && f[s] == PLUS
    ensures RestMatches(f, s, u, |u|)
  {
    PlusAt(f, s, u, |u|, |u|);
    EndAt(f, u, |u|);
  }

  /** Without a "$" on one side only, the levels decide. */
  lemma PlainFirst(f: seq<byte>, u: seq<byte>)
    requires f != [] && u != []
    ensures (f[0] == DOLLAR <==> u[0] == DOLLAR) ==> (TopicMatches(f, u) <==> RestMatches(f, 0, u, 0))
  {
    WholeMatches(f, u);
  }

  lemma DollarFirst(f: seq<byte>, u: seq<byte>)
    requires f != [] && u != [] && ValidTopic(u)
    requires (f[0] == DOLLAR && u[0] != DOLLAR) || (u[0] == DOLLAR && f[0] != DOLLAR)
    ensures !TopicMatches(f, u)
  {
    WholeMatches(f, u);
    if f[0] != PLUS && f[0] != HASH { MismatchAt(f, 0, u, 0); }
  }

  // ---------- the walk ----------

  predicate Wild(c: byte) { c == PLUS || c == HASH }

  predicate WildIn(u: seq<byte>, i: nat, j: nat)
    requires i <= j <= |u|
  {
    exists k | i <= k < j :: Wild(u[k])
  }

  lemma WildSplit(u: seq<byte>, i: nat, j: nat, k: nat)
    requires i <= j <= k <= |u|
    ensures WildIn(u, i, k) <==> WildIn(u, i, j) || WildIn(u, j, k)
  {
  }

  /** The end of the level that goes on at `t`. */
  function LevelEnd(u: seq<byte>, t: nat): (e: nat)
    requires t <= |u|
    ensures t <= e <= |u| && SLASH !in u[t..e] && (e == |u| || u[e] == SLASH)
    decreases |u| - t
  {
    if t == |u| || u[t] == SLASH then t else LevelEnd(u, t + 1)
  }

  predicate LevelStart(f: seq<byte>, s: nat)
    requires s <= |f|
  {
    s == 0 || f[s - 1] == SLASH
  }

  /** A "#" that something follows. */
  predicate HashInside(f: seq<byte>, s: nat) { exists k | s <= k < |f| - 1 :: f[k] == HASH }

  datatype Answer = Answer(rc: int, matches: bool)

  const MATCH := Answer(SUCCESS, true)
  const NO_MATCH := Answer(SUCCESS, false)
  const FAULT := Answer(ERR_INVAL, false)

  /** The loop of mosquitto_topic_matches_sub2, from one place in the filter and one in
      the topic on, for whatever strings. */
  function Verdict(f: seq<byte>, u: seq<byte>, s: nat, t: nat): Answer
    requires s <= |f| && t <= |u|
    decreases |f| - s
  {
    if s == |f| then if WildIn(u, t, |u|) then FAULT else NO_MATCH
    else if t < |u| && Wild(u[t]) then FAULT
    else if t == |u| || f[s] != u[t] then
      if f[s] == PLUS then
        var e := LevelEnd(u, t);
        if !LevelStart(f, s) || (s + 1 < |f| && f[s + 1] != SLASH) || WildIn(u, t, e) then FAULT
        else if e == |u| && s + 1 == |f| then MATCH
        else Verdict(f, u, s + 1, e)
      else if f[s] == HASH then
        if !LevelStart(f, s) || s + 1 < |f| || WildIn(u, t, |u|) then FAULT else MATCH
      else if t == |u| && 0 < s < |f| - 1 && f[s - 1] == PLUS && f[s] == SLASH && f[s + 1] == HASH then MATCH
      else if HashInside(f, s) then FAULT else NO_MATCH
    else if t + 1 == |u| && f[s + 1..] == [SLASH, HASH] then MATCH
    else if t + 1 == |u| && s + 1 == |f| then MATCH
    else if t + 1 == |u| && f[s + 1..] == [PLUS] then if f[s] != SLASH then FAULT else MATCH
    else Verdict(f, u, s + 1, t + 1)
  }

  /** And its answer: a "$" on one side only matches nothing. */
  function Judge(f: seq<byte>, u: seq<byte>): Answer
    requires f != [] && u != []
  {
    if (f[0] == DOLLAR) != (u[0] == DOLLAR) then NO_MATCH else Verdict(f, u, 0, 0)
  }

  /** A valid filter: the answer is that of the levels, and a wildcard in the topic
      matches nothing. */
  lemma {:induction false} WalkValid(f: seq<byte>, u: seq<byte>, s: nat, t: nat)
    requires s <= |f| && t <= |u| && ValidFilter(f)
    requires s == |f| ==> t < |u|
    requires t == |u| && f[s..] == [SLASH, HASH] ==> s > 0 && f[s - 1] == PLUS
    ensures Verdict(f, u, s, t).matches <==> !WildIn(u, t, |u|) && RestMatches(f, s, u, t)
    ensures !WildIn(u, t, |u|) ==> Verdict(f, u, s, t).rc == SUCCESS
    decreases |f| - s
  {
    hide RestMatches, ValidFilter;
    if s == |f| {
      EndAt(f, u, t);
    } else if !(t < |u| && Wild(u[t])) {
      FilterAt(f, s);
      if t == |u| || f[s] != u[t] {
        if f[s] == PLUS {
          var e := LevelEnd(u, t);
          PlusAt(f, s, u, t, e);
          WildSplit(u, t, e, |u|);
          if e == |u| && s + 1 == |f| { EndAt(f, u, e); } else { WalkValid(f, u, s + 1, e); }
        } else if f[s] == HASH {
          HashAt(f, s, u, t);
        } else {
          MismatchAt(f, s, u, t);
          HashLast(f, s);
        }
      } else {
        WildSplit(u, t, t + 1, |u|);
        EqualAt(f, s, u, t);
        if t + 1 == |u| && f[s + 1..] == [SLASH, HASH] {
          assert f[s + 1] == f[s + 1..][0] && f[s + 2] == f[s + 1..][1];
          ParentAt(f, s, u, t);
        } else if t + 1 == |u| && s + 1 == |f| {
          EndAt(f, u, t + 1);
        } else if t + 1 == |u| && f[s + 1..] == [PLUS] {
          assert f[s + 1] == f[s + 1..][0];
          FilterAt(f, s + 1);
          PlusLastAt(f, s + 1, u);
        } else {
          WalkValid(f, u, s + 1, t + 1);
        }
      }
    }
  }

  lemma HashLast(f: seq<byte>, s: nat)
    requires ValidFilter(f)
    ensures !HashInside(f, s)
    ensures s + 1 < |f| && f[s] == SLASH && f[s + 1] == HASH ==> f[s..] == [SLASH, HASH]
  {
    hide ValidFilter;
    forall k | s <= k < |f| - 1 ensures f[k] != HASH { FilterAt(f, k); }
    if s + 1 < |f| { FilterAt(f, s + 1); }
  }

  /** "+/#" with something behind it. */
  predicate Trailing(f: seq<byte>, k: nat) { 0 < k < |f| - 2 && f[k - 1] == PLUS && f[k] == SLASH && f[k + 1] == HASH }

  /** A filter that is at fault from here on matches nothing, but for such a tail. */
  lemma {:induction false} WalkInvalid(f: seq<byte>, u: seq<byte>, s: nat, t: nat)
    requires s <= |f| && t <= |u| && !FilterFrom(f[s..], LevelStart(f, s)) && forall k: nat :: !Trailing(f, k)
    ensures !Verdict(f, u, s, t).matches
    decreases |f| - s
  {
    if s < |f| {
      var r := f[s..];
      assert r[0] == f[s] && r[1..] == f[s + 1..];
      if |r| > 1 { assert r[1] == f[s + 1] && r[1..][1..] == f[s + 2..]; }
      if |r| > 2 { assert r[2] == f[s + 2]; }
      assert !Trailing(f, s);
      if !(t < |u| && Wild(u[t])) {
        if f[s] == PLUS && LevelStart(f, s) && (s + 1 == |f| || f[s + 1] == SLASH) {
          WalkInvalid(f, u, s + 1, LevelEnd(u, t));
        } else if t < |u| && f[s] == u[t] {
          WalkInvalid(f, u, s + 1, t + 1);
        }
      }
    }
  }
  /** Up to its "+", a filter with such a tail matches what it matches without it. */
  lemma {:induction false} TailIgnored(f: seq<byte>, k: nat, u: seq<byte>, s: nat, t: nat)
    requires Trailing(f, k) && s < k && t <= |u|
    ensures Verdict(f, u, s, t).matches <==> Verdict(f[..k], u, s, t).matches
    decreases |f| - s
  {
    var g := f[..k];
    assert f[s + 1..] != [SLASH, HASH] && f[s + 1..] != [PLUS] && g[|g| - 1] == PLUS;
    if s + 1 == k {
      var e := LevelEnd(u, t);
      AtTail(f, k, u, e);
    } else if !(t < |u| && Wild(u[t])) {
      if t == |u| || f[s] != u[t] {
        if f[s] == PLUS { TailIgnored(f, k, u, s + 1, LevelEnd(u, t)); }
      } else {
        assert g[s + 1..] != [SLASH, HASH] by { if |g[s + 1..]| == 2 { assert g[s + 1..][1] == PLUS; } }
        TailIgnored(f, k, u, s + 1, t + 1);
        if t + 1 == |u| && s + 2 == k { AtTail(f, k, u, |u|); }
      }
    }
  }

  /** At the tail only the end of the topic will do. */
  lemma AtTail(f: seq<byte>, k: nat, u: seq<byte>, t: nat)
    requires Trailing(f, k) && t <= |u| && (t == |u| || u[t] == SLASH)
    ensures Verdict(f, u, k, t).matches <==> t == |u|
  {
    assert f[k + 1..] != [SLASH, HASH] && f[k + 1..] != [PLUS];
    if t < |u| { assert !Verdict(f, u, k + 1, t + 1).matches; }
  }

  lemma WildMeans(u: seq<byte>)
    ensures ValidTopic(u) <==> !WildIn(u, 0, |u|)
  {
  }

  lemma {:induction false} VerdictCodes(f: seq<byte>, u: seq<byte>, s: nat, t: nat)
    requires s <= |f| && t <= |u|
    ensures var a := Verdict(f, u, s, t); a == MATCH || a == NO_MATCH || a == FAULT
    decreases |f| - s
  {
    if s < |f| {
      VerdictCodes(f, u, s + 1, LevelEnd(u, t));
      if t < |u| { VerdictCodes(f, u, s + 1, t + 1); }
    }
  }

  /** For a valid filter the answer is the one that the standard gives. */
  lemma JudgeValid(f: seq<byte>, u: seq<byte>)
    requires f != [] && u != [] && ValidFilter(f)
    ensures Judge(f, u).matches <==> ValidTopic(u) && TopicMatches(f, u)
    ensures ValidTopic(u) ==> Judge(f, u).rc == SUCCESS
  {
    hide ValidFilter, TopicMatches, Verdict, RestMatches, WildIn;
    WildMeans(u);
    if (f[0] == DOLLAR) != (u[0] == DOLLAR) {
      if ValidTopic(u) { DollarFirst(f, u); }
    } else {
      PlainFirst(f, u);
      WalkValid(f, u, 0, 0);
    }
  }

  lemma TrailingInvalid(f: seq<byte>, k: nat)
    requires Trailing(f, k)
    ensures !ValidFilter(f)
  {
    if ValidFilter(f) { FilterAt(f, k + 1); }
  }

  lemma {:induction false} FirstTrailing(f: seq<byte>, k: nat) returns (m: nat)
    requires Trailing(f, k)
    ensures Trailing(f, m) && forall n: nat | n < m :: !Trailing(f, n)
  {
    if n: nat :| n < k && Trailing(f, n) { m := FirstTrailing(f, n); } else { m := k; }
  }

  lemma JudgeTrailing(f: seq<byte>, m: nat, u: seq<byte>)
    requires u != [] && Trailing(f, m) && forall n: nat | n < m :: !Trailing(f, n)
    ensures Judge(f, u).matches <==> ValidTopic(u) && ValidFilter(f[..m]) && TopicMatches(f[..m], u)
  {
    hide ValidFilter, TopicMatches, Verdict, ValidTopic;
    var g := f[..m];
    TailIgnored(f, m, u, 0, 0);
    if ValidFilter(g) {
      JudgeValid(g, u);
    } else {
      forall n: nat ensures !Trailing(g, n) { assert Trailing(g, n) ==> Trailing(f, n); }
      FilterFromLevels(g);
      assert g[0..] == g;
      WalkInvalid(g, u, 0, 0);
    }
  }

  /** What mosquitto_topic_matches_sub2 reports as a match, for any two strings: a
      valid topic that a valid filter matches level by level; and one that a valid
      filter ending with "+" matches, if "/#" and anything else follow there. An error
      is reported only if filter or topic is at fault. */
  lemma JudgeExact(f: seq<byte>, u: seq<byte>)
    requires f != [] && u != []
    ensures Judge(f, u).matches <==>
            && ValidTopic(u)
            && (|| (ValidFilter(f) && TopicMatches(f, u))
                || exists k: nat :: Trailing(f, k) && ValidFilter(f[..k]) && TopicMatches(f[..k], u))
    ensures Judge(f, u).rc in {0, 3}
    ensures Judge(f, u).rc == 3 ==> !Judge(f, u).matches && !(ValidFilter(f) && ValidTopic(u))
  {
    hide ValidFilter, TopicMatches, Verdict, ValidTopic;
    VerdictCodes(f, u, 0, 0);
    if ValidFilter(f) { JudgeValid(f, u); }
    if k: nat :| Trailing(f, k) {
      var m := FirstTrailing(f, k);
      TrailingInvalid(f, m);
      JudgeTrailing(f, m, u);
      forall n: nat | Trailing(f, n) && ValidFilter(f[..n]) ensures n == m {
        if m < n { TrailingInvalid(f[..n], m); }
      }
    } else if !ValidFilter(f) {
      FilterFromLevels(f);
      assert f[0..] == f;
      WalkInvalid(f, u, 0, 0);
    }
  }

  /** The shortest filter of that kind: it is invalid and matches all the same. */
  lemma TrailingMatches()
    ensures var f: seq<byte> := [0x2B, 0x2F, 0x23, 0x78];
            !ValidFilter(f) && Judge(f, [0x61]) == MATCH
  {
    var f: seq<byte> := [0x2B, 0x2F, 0x23, 0x78];
    assert Trailing(f, 1);
    TrailingInvalid(f, 1);
    AtTail(f, 1, [0x61], 1);
    VerdictCodes(f, [0x61], 1, 1);
    assert LevelEnd([0x61], 1) == 1;
  }

  /** A fault may go unnoticed: behind the first difference only a "#" is looked for. */
  lemma FaultUnnoticed()
    ensures var f: seq<byte> := [0x61, 0x2B];
            !ValidFilter(f) && Judge(f, [0x62]) == NO_MATCH
  {
    var f: seq<byte> := [0x61, 0x2B];
    if ValidFilter(f) { FilterAt(f, 1); }
  }

  /** But a wildcard in the topic is reported whenever a valid filter matches some
      topic that is the same up to there. */
  lemma WildcardReported(f: seq<byte>, u: seq<byte>, k: nat, v: seq<byte>)
    requires ValidFilter(f) && f != [] && (f[0] == DOLLAR <==> u != [] && u[0] == DOLLAR)
    requires k < |u| && Wild(u[k]) && !WildIn(u, 0, k)
    requires v != [] && u[..k] <= v && TopicMatches(f, v)
    ensures Judge(f, u) == FAULT
  {
    hide ValidFilter, Verdict, RestMatches;
    WholeMatches(f, v);
    WalkToWildcard(f, u, k, v, 0, 0);
  }

  lemma {:induction false} WalkToWildcard(f: seq<byte>, u: seq<byte>, k: nat, v: seq<byte>, s: nat, t: nat)
    requires ValidFilter(f) && s <= |f| && t <= k < |u| && Wild(u[k]) && !WildIn(u, 0, k)
    requires u[..k] <= v && RestMatches(f, s, v, t)
    ensures Verdict(f, u, s, t) == FAULT
    decreases |f| - s
  {
    hide ValidFilter, RestMatches;
    assert WildIn(u, t, |u|);
    if s < |f| && t < k {
      assert u[t] == u[..k][t] == v[t] && !Wild(u[t]);
      FilterAt(f, s);
      if f[s] == PLUS {
        var e := LevelEnd(u, t);
        if e < k {
          assert v[t..e] == u[t..e] by { assert v[..k] == u[..k]; }
          assert v[e] == u[..k][e] == u[e];
          PlusAt(f, s, v, t, e);
          WalkToWildcard(f, u, k, v, s + 1, e);
        } else {
          assert u[k] != SLASH && WildIn(u, t, e);
        }
      } else if f[s] != HASH {
        if f[s] == v[t] {
          EqualAt(f, s, v, t);
          WalkToWildcard(f, u, k, v, s + 1, t + 1);
        } else {
          MismatchAt(f, s, v, t);
        }
      }
    }
  }

  /** Whether a wildcard character stands in the topic from `t` on. */
  method ScanForWildcard(topic: CString, t: nat) returns (bad: bool)
    requires t < |topic|
    ensures bad <==> WildIn(Chars(topic), t, |Chars(topic)|)
  {
    var i := t;
    while topic[i] != 0
      invariant t <= i < |topic| && !WildIn(Chars(topic), t, i)
      decreases |topic| - i
    {
      if topic[i] == PLUS || topic[i] == HASH {
        assert Wild(Chars(topic)[i]);
        return true;
      }
      i := i + 1;
    }
    return false;
  }

  lemma {:induction false} LevelEndIs(u: seq<byte>, from: nat, t: nat)
    requires from <= t <= |u| && SLASH !in u[from..t]
    ensures LevelEnd(u, from) == LevelEnd(u, t)
    decreases t - from
  {
    if from < t {
      assert u[from] in u[from..t] && forall c | c in u[from + 1..t] :: c in u[from..t];
      LevelEndIs(u, from + 1, t);
    }
  }

  /** Moving on to the end of the current topic level. */
  method SkipTopicLevel(topic: CString, from: nat) returns (bad: bool, t: nat)
    requires from < |topic|
    ensures bad <==> WildIn(Chars(topic), from, LevelEnd(Chars(topic), from))
    ensures !bad ==> t == LevelEnd(Chars(topic), from)
  {
    ghost var u := Chars(topic);
    t := from;
    while topic[t] != 0 && topic[t] != SLASH
      invariant from <= t < |topic| && SLASH !in u[from..t] && !WildIn(u, from, t)
      decreases |topic| - t
    {
      assert u[from..t + 1] == u[from..t] + [topic[t]];
      LevelEndIs(u, from, t + 1);
      if topic[t] == PLUS || topic[t] == HASH {
        assert Wild(u[t]);
        return true, t;
      }
      t := t + 1;
    }
    LevelEndIs(u, from, t);
    return false, t;
  }

  /** The rest of an invalid-filter scan: a "#" that is not last. */
  method ScanForBadHash(sub: CString, s: nat) returns (bad: bool)
    requires s < |sub|
    ensures bad <==> HashInside(Chars(sub), s)
  {
    var i := s;
    while sub[i] != 0
      invariant s <= i < |sub| && forall k | s <= k < i && k < |Chars(sub)| - 1 :: Chars(sub)[k] != HASH
      decreases |sub| - i
    {
      if sub[i] == HASH && sub[i + 1] != 0 {
        assert Chars(sub)[i] == HASH;
        return true;
      }
      i := i + 1;
    }
    return false;
  }

  /** mosquitto_topic_matches_sub2. The pointer walk reads neither string beyond
      its NUL, whatever they hold. */
  method MatchesSub(sub: CString, topic: CString) returns (rc: int, result: bool)
    ensures Chars(sub) == [] || Chars(topic) == [] ==> rc == ERR_INVAL && !result
    ensures Chars(sub) != [] && Chars(topic) != [] ==> Answer(rc, result) == Judge(Chars(sub), Chars(topic))
    ensures Chars(sub) != [] && Chars(topic) != [] && ValidFilter(Chars(sub)) && ValidTopic(Chars(topic)) ==>
              rc == SUCCESS && result == TopicMatches(Chars(sub), Chars(topic))
  {
    hide ValidFilter, TopicMatches, ValidTopic;
    result := false;
    if sub[0] == 0 || topic[0] == 0 { return ERR_INVAL, false; }
    ghost var f, u := Chars(sub), Chars(topic);
    if ValidFilter(f) { JudgeValid(f, u); }
    if (sub[0] == DOLLAR && topic[0] != DOLLAR) || (topic[0] == DOLLAR && sub[0] != DOLLAR) {
      return SUCCESS, false;
    }
    rc, result := Walk(sub, topic);
  }

  /** The loop. */
  method Walk(sub: CString, topic: CString) returns (rc: int, result: bool)
    requires Chars(sub) != [] && Chars(topic) != []
    ensures Answer(rc, result) == Verdict(Chars(sub), Chars(topic), 0, 0)
  {
    hide WildIn, HashInside, LevelEnd;
    ghost var f, u := Chars(sub), Chars(topic);
    result := false;
    var s, t, spos := 0, 0, 0;
    while sub[s] != 0
      invariant 0 <= s <= |f| && 0 <= t <= |u| && spos == s && !result
      invariant Verdict(f, u, 0, 0) == Verdict(f, u, s, t)
      invariant s == |f| ==> t < |u|
      decreases |f| - s
    {
      if topic[t] == PLUS || topic[t] == HASH { return ERR_INVAL, result; }
      if sub[s] != topic[t] || topic[t] == 0 {
        if sub[s] == PLUS {
          if spos > 0 && sub[s - 1] != SLASH { return ERR_INVAL, result; }
          if sub[s + 1] != 0 && sub[s + 1] != SLASH { return ERR_INVAL, result; }
          spos := spos + 1;
          s := s + 1;
          var bad;
          bad, t := SkipTopicLevel(topic, t);
          if bad { return ERR_INVAL, result; }
          if topic[t] == 0 && sub[s] == 0 { return SUCCESS, true; }
        } else if sub[s] == HASH {
          if spos > 0 && sub[s - 1] != SLASH { return ERR_INVAL, result; }
          if sub[s + 1] != 0 { return ERR_INVAL, result; }
          var bad := ScanForWildcard(topic, t);
          if bad { return ERR_INVAL, result; }
          return SUCCESS, true;
        } else {
          if topic[t] == 0 && spos > 0 && sub[s - 1] == PLUS && sub[s] == SLASH && sub[s + 1] == HASH { return SUCCESS, true; }
          var bad := ScanForBadHash(sub, s);
          return if bad then ERR_INVAL else SUCCESS, result;
        }
      } else {
        ParentHere(sub, s);
        if topic[t + 1] == 0 {
          if sub[s + 1] == SLASH && sub[s + 2] == HASH && sub[s + 3] == 0 { return SUCCESS, true; }
        }
        PlusHere(sub, s);
        spos := spos + 1;
        s := s + 1;
        t := t + 1;
        if sub[s] == 0 && topic[t] == 0 {
          return SUCCESS, true;
        } else if topic[t] == 0 && sub[s] == PLUS && sub[s + 1] == 0 {
          if spos > 0 && sub[s - 1] != SLASH { return ERR_INVAL, result; }
          return SUCCESS, true;
        }
      }
    }
    if sub[s] != 0 || topic[t] != 0 { result := false; }
    var bad := ScanForWildcard(topic, t);
    return if bad then ERR_INVAL else SUCCESS, result;
  }

  lemma ParentHere(sub: CString, s: nat)
    requires s < |Chars(sub)|
    ensures Chars(sub)[s + 1..] == [SLASH, HASH] <==> sub[s + 1] == SLASH && sub[s + 2] == HASH && sub[s + 3] == 0
  {
    var r := Chars(sub)[s + 1..];
    assert forall i | 0 <= i < |r| :: r[i] == sub[s + 1 + i] && r[i] in Chars(sub);
    if sub[s + 1] == SLASH && sub[s + 2] == HASH && sub[s + 3] == 0 { assert |r| == 2; }
    if r == [SLASH, HASH] { assert r[0] == SLASH && r[1] == HASH; }
  }

  lemma PlusHere(sub: CString, s: nat)
    requires s < |Chars(sub)|
    ensures Chars(sub)[s + 1..] == [PLUS] <==> sub[s + 1] == PLUS && sub[s + 2] == 0
  {
    var r := Chars(sub)[s + 1..];
    assert forall i | 0 <= i < |r| :: r[i] == sub[s + 1 + i] && r[i] in Chars(sub);
    if sub[s + 1] == PLUS && sub[s + 2] == 0 { assert |r| == 1; }
    if r == [PLUS] { assert r[0] == PLUS; }
  }

  // ---------- tokenising ----------

  /** The entry made for a level: an empty one is left as a null pointer. */
  function Token(l: seq<byte>): Option<seq<byte>> { if l == [] then None else Some(l) }

  /** One level ends at `stop`. */
  lemma LevelEnds(text: seq<byte>, start: nat, stop: nat)
    requires start <= stop <= |text| && SLASH !in text[start..stop]
    requires stop == |text| || text[stop] == SLASH
    ensures Levels(text[start..])[0] == text[start..stop]
    ensures stop == |text| ==> |Levels(text[start..])| == 1
    ensures stop < |text| ==> Levels(text[start..])[1..] == Levels(text[stop + 1..])
  {
    assert text[start..][..stop - start] == text[start..stop];
    assert text[start..][stop - start..] == text[stop..];
    SkipLevel(text[start..], stop - start);
    if stop < |text| {
      assert text[stop..][1..] == text[stop + 1..];
      assert Levels(text[stop..])[1..] == Levels(text[stop + 1..]);
    } else {
      assert text[stop..] == [];
      assert |Levels(text[start..])[1..]| == 0;
    }
  }

  /** The counting loop of mosquitto_sub_topic_tokenise. */
  method CountLevels(subtopic: CString) returns (hierCount: nat)
    ensures hierCount == |Levels(Chars(subtopic))|
  {
    ghost var text := Chars(subtopic);
    var len := |subtopic| - 1;
    assert text[0..] == text;
    hierCount := 1;
    for i := 0 to len
      invariant |Levels(text)| == hierCount - 1 + |Levels(text[i..])|
    {
      assert text[i..][1..] == text[i + 1..];
      if subtopic[i] == SLASH { hierCount := hierCount + 1; }
    }
    assert text[len..] == [];
  }

  /** mosquitto_sub_topic_tokenise. */
  method SubTopicTokenise(subtopic: CString) returns (topics: array<Option<seq<byte>>>, count: nat)
    ensures fresh(topics) && count == topics.Length == |Levels(Chars(subtopic))|
    ensures forall k | 0 <= k < count :: topics[k] == Token(Levels(Chars(subtopic))[k])
  {
    hide Levels;
    ghost var text := Chars(subtopic);
    ghost var ls := Levels(text);
    var len := |subtopic| - 1;
    assert text[0..] == text;
    var hierCount := CountLevels(subtopic);
    topics := new Option<seq<byte>>[hierCount](_ => None);
    var start, hier := 0, 0;
    for i := 0 to len + 1
      invariant 0 <= hier <= hierCount
      invariant forall k | 0 <= k < hier :: topics[k] == Token(ls[k])
      invariant forall k | hier <= k < hierCount :: topics[k] == None
      invariant i <= len ==> 0 <= start <= i && SLASH !in text[start..i]
      invariant i <= len ==> hier < hierCount && ls[hier..] == Levels(text[start..])
      invariant i == len + 1 ==> hier == hierCount
    {
      if subtopic[i] == SLASH || subtopic[i] == 0 {
        var stop := i;
        LevelEnds(text, start, stop);
        assert ls[hier] == ls[hier..][0] == subtopic[start..stop];
        if start != stop {
          topics[hier] := Some(subtopic[start..stop]);
        }
        assert topics[hier] == Token(ls[hier]);
        assert ls[hier + 1..] == ls[hier..][1..];
        start := i + 1;
        hier := hier + 1;
      } else {
        assert text[start..i + 1] == text[start..i] + [text[i]];
      }
    }
    count := hierCount;
  }
}
