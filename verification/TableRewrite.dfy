/** Splitting a table renames it in the text of a statement: every whole-word occurrence of the
    table's name that belongs to the split database gets the shard's suffix. */
module TableRewrite {

  /** Letters, digits, '_' and '$' make up names. */
  predicate WordChar(c: char) {
    c == '$' || c == '_' || '0' <= c <= '9' || 'a' <= c <= 'z' || 'A' <= c <= 'Z'
  }

  predicate AllWord(s: string) {
    forall i :: 0 <= i < |s| ==> WordChar(s[i])
  }

  predicate OccursAt(s: string, k: string, p: nat) {
    p + |k| <= |s| && s[p..p + |k|] == k
  }

  /** No name character touches the occurrence on either side. */
  predicate WholeWordAt(s: string, k: string, p: nat) {
    && OccursAt(s, k, p)
    && (p == 0 || !WordChar(s[p - 1]))
    && (p + |k| == |s| || !WordChar(s[p + |k|]))
  }

  // ----- Finding a whole word

  /** std::string::operator[]: the terminator at the length, and for index -1 whatever lies in
      front of the text in memory. */
  function CharAt(s: string, i: int, stray: char): char
    requires -1 <= i <= |s|
  {
    if i < 0 then stray else if i == |s| then '\0' else s[i]
  }

  /** _is_valid_key_word for the characters first..last. */
  predicate IsValidKeyWord(first: nat, last: nat, s: string, stray: char)
    requires first <= last < |s|
  {
    || (first == 0 && last == |s| - 1)
    || (first == 0 && !WordChar(CharAt(s, last + 1, stray)))
    || (last == |s| - 1 && !WordChar(CharAt(s, first - 1, stray)))
    || (!WordChar(CharAt(s, first - 1, stray)) && !WordChar(CharAt(s, last + 1, stray)))
  }

  /** The test decides whole words, although it reads one character before the text: that
      character never matters. */
  lemma ValidKeyWordIsWholeWord(s: string, k: string, p: nat, stray: char)
    requires k != "" && OccursAt(s, k, p)
    ensures IsValidKeyWord(p, p + |k| - 1, s, stray) <==> WholeWordAt(s, k, p)
  {
  }

  /** std::string::find: the least occurrence at or after i, or -1. */
  function Find(s: string, k: string, i: nat): (r: int)
    ensures r == -1 || (i <= r <= |s| - |k| && OccursAt(s, k, r))
    ensures forall q :: i <= q && (r == -1 || q < r) ==> !OccursAt(s, k, q)
    decreases |s| - i
  {
    if i + |k| > |s| then -1 else if OccursAt(s, k, i) then i else Find(s, k, i + 1)
  }

  /** The least whole-word occurrence at or after i, or -1. */
  function NextWord(s: string, k: string, i: nat): (r: int)
    ensures r == -1 || (i <= r <= |s| - |k| && WholeWordAt(s, k, r))
    ensures forall q :: i <= q && (r == -1 || q < r) ==> !WholeWordAt(s, k, q)
    decreases |s| - i
  {
    if i + |k| > |s| then -1 else if WholeWordAt(s, k, i) then i else NextWord(s, k, i + 1)
  }

  /** What the search finds: it goes on behind an occurrence that is not a whole word. */
  function FindWord(s: string, k: string, i: nat): (r: int)
    requires k != ""
    ensures r == -1 || (i <= r <= |s| - |k| && WholeWordAt(s, k, r))
    decreases |s| - i
  {
    if i >= |s| then -1
    else
      var p := Find(s, k, i);
      if p == -1 || WholeWordAt(s, k, p) then p else FindWord(s, k, p + |k|)
  }

  /** _findn_case_sensitive */
  method FindN(s: string, k: string, from: nat, stray: char) returns (r: int)
    requires k != ""
    ensures r == FindWord(s, k, from)
  {
    hide OccursAt, WholeWordAt, IsValidKeyWord;
    var start := from;
    while start < |s|
      invariant FindWord(s, k, from) == FindWord(s, k, start)
      decreases |s| - start
    {
      var p := Find(s, k, start);
      if p == -1 {
        return -1;
      }
      ValidKeyWordIsWholeWord(s, k, p, stray);
      var last := p + |k| - 1;
      if IsValidKeyWord(p, last, s, stray) {
        return p;
      }
      start := last + 1;
    }
    return -1;
  }

  /** A copy of k may start d characters into another, behind a character that ends names. */
  predicate Nests(k: string, d: int) {
    0 < d < |k| && k[d..] == k[..|k| - d] && !WordChar(k[d - 1])
  }

  /** No copy of k can be a whole word while it overlaps an earlier copy. */
  ghost predicate Skippable(k: string) {
    forall d :: !Nests(k, d)
  }

  lemma OverlapNests(s: string, k: string, p: nat, q: nat)
    requires OccursAt(s, k, p) && WholeWordAt(s, k, q) && p < q < p + |k|
    ensures Nests(k, q - p)
  {
    var d := q - p;
    assert s[p..p + |k|][d - 1] == s[q - 1];
    forall i | 0 <= i < |k| - d ensures k[d..][i] == k[..|k| - d][i] {
      assert s[p..p + |k|][d + i] == s[q + i] == s[q..q + |k|][i];
    }
  }

  /** The search finds the least whole word in spite of what it skips. */
  lemma {:induction false} SkippingIsHarmless(s: string, k: string, i: nat)
    requires k != "" && Skippable(k)
    ensures FindWord(s, k, i) == NextWord(s, k, i)
    decreases |s| - i
  {
    hide OccursAt, Nests;
    if i < |s| {
      var p := Find(s, k, i);
      var r := FindWord(s, k, i);
      if p != -1 && !WholeWordAt(s, k, p) {
        SkippingIsHarmless(s, k, p + |k|);
        forall q | i <= q && (r == -1 || q < r) ensures !WholeWordAt(s, k, q) {
          if WholeWordAt(s, k, q) {
            if p < q < p + |k| {
              OverlapNests(s, k, p, q);
            }
          }
        }
      }
    }
  }

  lemma FindName(s: string, k: string, i: nat)
    requires k != "" && AllWord(k)
    ensures FindWord(s, k, i) == NextWord(s, k, i)
  {
    SkippingIsHarmless(s, k, i);
  }

  /** A text on which the search misses the only whole word. */
  function MissingText(k: string, d: nat): string
    requires 0 < d < |k|
  {
    [if k[0] == 'x' then 'y' else 'x'] + k[..d] + k
  }

  lemma SkippingMisses(k: string, d: nat)
    requires Nests(k, d)
    ensures FindWord(MissingText(k, d), k, 0) == -1
    ensures WholeWordAt(MissingText(k, d), k, 1 + d)
  {
    var s := MissingText(k, d);
    assert s[1 + d..] == k;
    assert s[d] == k[d - 1];
    assert k == k[..d] + k[d..];
    assert s[1..1 + |k|] == k[..d] + k[..|k| - d];
    assert s[0] != k[0] && s[0..|k|][0] == s[0];
    assert OccursAt(s, k, 1) && !OccursAt(s, k, 0);
    var p := Find(s, k, 0);
    assert p == 1;
    assert !WholeWordAt(s, k, 1);
    assert Find(s, k, 1 + |k|) == -1;
  }

  /** The search finds the least whole word in every text exactly when no copy of the name can nest
      in another; names made of name characters qualify, "a-a" does not. */
  lemma FindIsLeastIff(k: string)
    requires k != ""
    ensures Skippable(k) <==> forall s, i: nat :: FindWord(s, k, i) == NextWord(s, k, i)
  {
    if Skippable(k) {
      forall s, i: nat ensures FindWord(s, k, i) == NextWord(s, k, i) {
        SkippingIsHarmless(s, k, i);
      }
    } else {
      var d :| Nests(k, d);
      SkippingMisses(k, d);
      assert FindWord(MissingText(k, d), k, 0) != NextWord(MissingText(k, d), k, 0);
    }
  }

  lemma HyphenatedNameNests()
    ensures !Skippable("a-a") && FindWord("xa-a-a", "a-a", 0) == -1 && NextWord("xa-a-a", "a-a", 0) == 3
  {
    var k := "a-a";
    assert k[2..] == k[..1] && Nests(k, 2);
    SkippingMisses(k, 2);
    assert MissingText(k, 2) == "xa-a-a";
    var s := "xa-a-a";
  }

  // ----- Whose table an occurrence names

  /** Table `table` of database `db` is split; `id` is the shard's suffix.  The connection may have
      a logic database, which unqualified names belong to. */
  datatype Split = Split(db: string, table: string, id: string, hasLogicDb: bool, logicDb: string) {
    function NewName(): string { table + id }

    predicate Named() { table != "" && AllWord(table) }
  }

  /** The name that ends the text. */
  function LastName(s: string): string {
    if s == "" || !WordChar(s[|s| - 1]) then "" else LastName(s[..|s| - 1]) + [s[|s| - 1]]
  }

  lemma LastNameStep(s: string)
    ensures LastName(s) == if s == "" || !WordChar(s[|s| - 1]) then "" else LastName(s[..|s| - 1]) + [s[|s| - 1]]
  {
    hide WordChar;
  }

  /** It is the longest end of the text that is a name. */
  lemma {:induction false} LastNameIsLongest(s: string)
    ensures var n := LastName(s); var c := |s| - |n|;
            && c >= 0 && s == s[..c] + n && AllWord(n) && (c > 0 ==> !WordChar(s[c - 1]))
  {
    hide WordChar, LastName;
    LastNameStep(s);
    if s == "" || !WordChar(s[|s| - 1]) {
      assert s == s[..|s|] + "";
    } else {
      var u, x := s[..|s| - 1], s[|s| - 1];
      LastNameIsLongest(u);
      Extended(s, u, x, LastName(u));
    }
  }

  lemma Extended(s: string, u: string, x: char, n: string)
    requires |n| <= |u| && u == u[..|u| - |n|] + n && s == u + [x]
    ensures s == s[..|u| - |n|] + (n + [x])
  {
  }

  lemma {:induction false} LastNameJoin(a: string, b: string)
    ensures LastName(a + b) == if AllWord(b) then LastName(a) + b else LastName(b)
    decreases |b|
  {
    hide WordChar, LastName;
    if b == "" {
      assert a + b == a;
    } else {
      var l := |b| - 1;
      LastNameStep(a + b);
      LastNameStep(b);
      assert (a + b)[|a + b| - 1] == b[l] && (a + b)[..|a + b| - 1] == a + b[..l];
      if WordChar(b[l]) {
        assert b == b[..l] + [b[l]];
        LastNameJoin(a, b[..l]);
        assert AllWord(b) == AllWord(b[..l]);
        assert LastName(a) + b[..l] + [b[l]] == LastName(a) + b;
      }
    }
  }

  /** _parse_db_name: the name in front of the '.' in front of pos. */
  method ParseDbName(s: string, pos: nat) returns (name: string)
    requires 0 < pos <= |s|
    ensures name == LastName(s[..pos - 1])
  {
    hide WordChar, LastName;
    var num := 0;
    var start := pos - 2;
    while start >= 0
      invariant start + num == pos - 2 && -1 <= start && num >= 0
      invariant forall i :: start < i < pos - 1 ==> WordChar(s[i])
    {
      if !WordChar(s[start]) {
        break;
      }
      start := start - 1;
      num := num + 1;
    }
    start := start + 1;
    name := s[start..start + num];
    NoName(s[..start]);
    LastNameJoin(s[..start], name);
    assert s[..start] + name == s[..pos - 1];
  }

  lemma NoName(s: string)
    requires s == "" || !WordChar(s[|s| - 1])
    ensures LastName(s) == ""
  {
  }

  /** An occurrence behind `front` belongs to the split database: unqualified, when that is the
      logic database; qualified, when it is the qualifier. */
  predicate Belongs(t: Split, front: string) {
    if front == "" || front[|front| - 1] != '.' then t.hasLogicDb && t.logicDb == t.db
    else LastName(front[..|front| - 1]) == t.db
  }

  // ----- Rewriting

  /** What the loop of _rewrite_table_name makes of the text from its cursor on. */
  function Rewrite(t: Split, cur: string, pos: nat): string
    requires t.table != ""
    decreases if pos < |cur| then |cur| - pos else 0
  {
    if pos >= |cur| then cur
    else
      var p := FindWord(cur, t.table, pos);
      if p == -1 then cur
      else if Belongs(t, cur[..p]) then
        Rewrite(t, cur[..p] + t.NewName() + cur[p + |t.table|..], p + |t.NewName()|)
      else Rewrite(t, cur, p + |t.NewName()|)
  }

  /** The tests that decide whether the occurrence at pos is replaced. */
  method IsReplaced(t: Split, s: string, pos: nat) returns (b: bool)
    requires pos <= |s|
    ensures b == Belongs(t, s[..pos])
  {
    if pos == 0 || s[pos - 1] != '.' {
      b := t.hasLogicDb && t.logicDb == t.db;
    } else {
      var name := ParseDbName(s, pos);
      assert s[..pos][..pos - 1] == s[..pos - 1];
      b := name == t.db;
    }
  }

  /** _rewrite_table_name */
  method RewriteTableName(t: Split, sql: string, stray: char) returns (r: string)
    requires t.table != ""
    ensures r == Rewrite(t, sql, 0)
    ensures t.Named() && Unambiguous(t) && NothingSkipped(t, sql, 0) ==> r == Suffixed(t, sql, 0)
  {
    hide WholeWordAt, Belongs, FindWord;
    r := sql;
    var newName := t.table + t.id;
    var start := 0;
    while start < |r|
      invariant start >= 0 && Rewrite(t, sql, 0) == Rewrite(t, r, start)
      decreases |r| - start
    {
      var p := FindN(r, t.table, start, stray);
      if p == -1 {
        break;
      }
      start := p;
      var replaced := IsReplaced(t, r, start);
      if replaced {
        r := r[..start] + newName + r[start + |t.table|..];
      }
      start := start + |newName|;
    }
    if t.Named() && Unambiguous(t) && NothingSkipped(t, sql, 0) {
      RewriteSuffixes(t, sql);
    }
  }

  predicate Hit(t: Split, s: string, p: nat) {
    WholeWordAt(s, t.table, p) && Belongs(t, s[..p])
  }

  /** The text with every occurrence that belongs to the split database suffixed. */
  function Suffixed(t: Split, s: string, i: nat): string
    requires t.table != "" && i <= |s|
    decreases |s| - i
  {
    if i == |s| then ""
    else if Hit(t, s, i) then t.NewName() + Suffixed(t, s, i + |t.table|)
    else [s[i]] + Suffixed(t, s, i + 1)
  }

  /** Where the cursor goes behind an occurrence that is not replaced: as far as behind a new name. */
  function SkipTo(t: Split, s: string, p: nat): (j: nat)
    requires p <= |s|
    ensures p <= j <= |s|
  {
    if p + |t.NewName()| <= |s| then p + |t.NewName()| else |s|
  }

  /** The text with the occurrences that the cursor visits suffixed, in terms of the original. */
  function Edit(t: Split, s: string, i: nat): string
    requires t.table != "" && i <= |s|
    decreases |s| - i
  {
    var p := NextWord(s, t.table, i);
    if p == -1 then s[i..]
    else if Belongs(t, s[..p]) then s[i..p] + t.NewName() + Edit(t, s, p + |t.table|)
    else var j := SkipTo(t, s, p); s[i..j] + Edit(t, s, j)
  }

  /** No occurrence that belongs starts where the cursor skips. */
  predicate NothingSkipped(t: Split, s: string, i: nat)
    requires t.table != "" && i <= |s|
    decreases |s| - i
  {
    var p := NextWord(s, t.table, i);
    || p == -1
    || (Belongs(t, s[..p]) && NothingSkipped(t, s, p + |t.table|))
    || (!Belongs(t, s[..p]) && var j := SkipTo(t, s, p);
        (forall q :: p < q < j ==> !Hit(t, s, q)) && NothingSkipped(t, s, j))
  }

  /** Reading the database off a name that was just replaced makes no difference. */
  predicate Unambiguous(t: Split) {
    t.table == t.db <==> LastName(t.NewName()) == t.db
  }

  // ----- The cursor's view of the text

  /** The rewritten front `done` and the original front `f` end alike, or in the new and the old
      name, and then no name goes on. */
  ghost predicate Joined(t: Split, f: string, done: string, rest: string, common: string) {
    || (f == "" && done == "")
    || (&& common != "" && |common| <= |f| && |common| <= |done|
        && f[|f| - |common|..] == common && done[|done| - |common|..] == common
        && LastName(f[..|f| - |common|]) == "" && LastName(done[..|done| - |common|]) == "")
    || (&& LastName(f) == t.table && LastName(done) == LastName(t.NewName()) && done != ""
        && (rest == "" || !WordChar(rest[0])))
  }

  lemma BelongsBehind(t: Split, f: string, c: string)
    requires c != "" && c[|c| - 1] == '.'
    ensures var d := c[..|c| - 1];
            Belongs(t, f + c) <==> (if AllWord(d) then LastName(f) + d else LastName(d)) == t.db
  {
    hide WordChar;
    var d := c[..|c| - 1];
    assert (f + c)[..|f + c| - 1] == f + d;
    LastNameJoin(f, d);
  }

  lemma SharedTail(t: Split, f: string, d: string, c: string)
    requires c != "" && LastName(f) == LastName(d)
    ensures Belongs(t, f + c) == Belongs(t, d + c)
  {
    if c[|c| - 1] == '.' {
      hide Belongs, AllWord, LastName;
      BelongsBehind(t, f, c);
      BelongsBehind(t, d, c);
    }
  }

  lemma BehindNewName(t: Split, f: string, d: string, c: string)
    requires c != "" && !WordChar(c[0])
    requires LastName(f) == t.table && LastName(d) == LastName(t.NewName()) && Unambiguous(t)
    ensures Belongs(t, f + c) == Belongs(t, d + c)
  {
    if c[|c| - 1] == '.' {
      hide Belongs, LastName, WordChar;
      BelongsBehind(t, f, c);
      BelongsBehind(t, d, c);
      if |c| > 1 {
        assert !WordChar(c[..|c| - 1][0]);
      }
    }
  }

  /** Original and current text agree on what occurs behind the cursor and whom it belongs to. */
  lemma SameView(t: Split, f: string, done: string, rest: string, common: string, o: nat)
    requires t.Named() && Unambiguous(t) && Joined(t, f, done, rest, common) && o <= |rest|
    ensures WholeWordAt(f + rest, t.table, |f| + o) == WholeWordAt(done + rest, t.table, |done| + o)
    ensures WholeWordAt(f + rest, t.table, |f| + o) ==> Belongs(t, f + rest[..o]) == Belongs(t, done + rest[..o])
  {
    SameOccurrence(t, f, done, rest, common, o);
    if WholeWordAt(f + rest, t.table, |f| + o) {
      SameOwner(t, f, done, rest, common, o);
    }
  }

  lemma OccursBehind(f: string, rest: string, k: string, o: nat)
    requires o <= |rest|
    ensures OccursAt(f + rest, k, |f| + o) == OccursAt(rest, k, o)
  {
  }

  lemma SameOccurrence(t: Split, f: string, done: string, rest: string, common: string, o: nat)
    requires t.Named() && Joined(t, f, done, rest, common) && o <= |rest|
    ensures WholeWordAt(f + rest, t.table, |f| + o) == WholeWordAt(done + rest, t.table, |done| + o)
  {
    var k := t.table;
    OccursBehind(f, rest, k, o);
    OccursBehind(done, rest, k, o);
    if OccursAt(rest, k, o) {
      assert rest[o] == rest[o..o + |k|][0] == k[0];
      if o == 0 && f != "" {
        assert f[|f| - 1] == f[|f| - |common|..][|common| - 1];
        assert done[|done| - 1] == done[|done| - |common|..][|common| - 1];
      }
    }
  }

  lemma SameOwner(t: Split, f: string, done: string, rest: string, common: string, o: nat)
    requires t.Named() && Unambiguous(t) && Joined(t, f, done, rest, common) && o <= |rest|
    requires WholeWordAt(f + rest, t.table, |f| + o)
    ensures Belongs(t, f + rest[..o]) == Belongs(t, done + rest[..o])
  {
    hide WordChar, Belongs, Unambiguous, LastName;
    var c := rest[..o];
    OccursBehind(f, rest, t.table, o);
    if f == "" && done == "" {
      assert f == done;
    } else if LastName(f) == t.table && LastName(done) == LastName(t.NewName())
      && (rest == "" || !WordChar(rest[0])) {
      assert rest[o] == rest[o..o + |t.table|][0] == t.table[0];
      BehindNewName(t, f, done, c);
    } else {
      var f0, d0 := f[..|f| - |common|], done[..|done| - |common|];
      assert f + c == f0 + (common + c) && done + c == d0 + (common + c);
      SharedTail(t, f0, d0, common + c);
    }
  }

  function Shift(p: int, n: int): int { if p == -1 then -1 else p + n }

  lemma SameNextWord(t: Split, f: string, done: string, rest: string, common: string)
    requires t.Named() && Unambiguous(t) && Joined(t, f, done, rest, common)
    ensures NextWord(done + rest, t.table, |done|) == Shift(NextWord(f + rest, t.table, |f|), |done| - |f|)
  {
    hide WholeWordAt, Joined, Belongs, Unambiguous, NextWord;
    var k := t.table;
    var r := NextWord(f + rest, k, |f|);
    var n := Shift(r, |done| - |f|);
    forall q | |done| <= q && (n == -1 || q < n) ensures !WholeWordAt(done + rest, k, q) {
      var o := q - |done|;
      if o <= |rest| {
        SameView(t, f, done, rest, common, o);
        assert !WholeWordAt(f + rest, k, |f| + o);
      } else {
        PastEnd(done + rest, k, q);
      }
    }
    if r != -1 {
      SameView(t, f, done, rest, common, r - |f|);
    }
  }

  lemma PastEnd(s: string, k: string, q: nat)
    requires q > |s|
    ensures !WholeWordAt(s, k, q)
  {
  }

  lemma WholeWordEnds(s: string, k: string, p: nat)
    requires WholeWordAt(s, k, p)
    ensures p + |k| <= |s| && LastName(s[..p]) == "" && s[p..p + |k|] == k
    ensures p + |k| == |s| || !WordChar(s[p + |k|])
  {
  }

  /** Replacing leaves the cursor behind the new name. */
  lemma JoinedAfterReplacing(t: Split, s: string, p: nat, front: string)
    requires t.Named() && WholeWordAt(s, t.table, p) && LastName(front) == ""
    ensures Joined(t, s[..p + |t.table|], front + t.NewName(), s[p + |t.table|..], "")
  {
    hide WholeWordAt, WordChar, LastName;
    WholeWordEnds(s, t.table, p);
    assert s[..p + |t.table|] == s[..p] + t.table;
    LastNameJoin(s[..p], t.table);
    LastNameJoin(front, t.NewName());
    LastNameJoin("", t.NewName());
    NoName("");
    assert "" + t.NewName() == t.NewName() && "" + t.table == t.table;
  }

  /** Skipping leaves it behind a stretch that both texts share. */
  lemma JoinedAfterSkipping(t: Split, s: string, p: nat, j: nat, front: string)
    requires WholeWordAt(s, t.table, p) && LastName(front) == "" && p < j <= |s|
    ensures Joined(t, s[..j], front + s[p..j], s[j..], s[p..j])
  {
    hide WholeWordAt, WordChar, LastName;
    WholeWordEnds(s, t.table, p);
    var f, done, common := s[..j], front + s[p..j], s[p..j];
    assert f[|f| - |common|..] == common && f[..|f| - |common|] == s[..p];
    assert done[|done| - |common|..] == common && done[..|done| - |common|] == front;
  }

  /** The loop edits exactly the occurrences of the original text that its cursor visits. */
  lemma {:induction false} RewriteIsEdit(t: Split, s: string, i: nat, done: string, common: string)
    requires t.Named() && Unambiguous(t) && i <= |s| && Joined(t, s[..i], done, s[i..], common)
    ensures Rewrite(t, done + s[i..], |done|) == done + Edit(t, s, i)
    decreases |s| - i
  {
    hide WholeWordAt, Joined, Belongs, Unambiguous, FindWord;
    var k, f, rest := t.table, s[..i], s[i..];
    var cur := done + rest;
    assert s == f + rest;
    FindName(cur, k, |done|);
    SameNextWord(t, f, done, rest, common);
    var p := NextWord(s, k, i);
    if p == -1 {
      assert rest == Edit(t, s, i);
    } else {
      SameView(t, f, done, rest, common, p - i);
      assert rest[..p - i] == s[i..p] && f + s[i..p] == s[..p];
      RewriteVisits(t, s, i, done, p, cur, p - i + |done|);
    }
  }

  /** The same at an occurrence. */
  lemma {:induction false} RewriteVisits(t: Split, s: string, i: nat, done: string, p: nat, cur: string, q: nat)
    requires t.Named() && Unambiguous(t) && i <= |s| && p == NextWord(s, t.table, i)
    requires cur == done + s[i..] && q == p - i + |done| == FindWord(cur, t.table, |done|)
    requires Belongs(t, s[..p]) == Belongs(t, done + s[i..p])
    ensures Rewrite(t, cur, |done|) == done + Edit(t, s, i)
    decreases |s| - i, 1
  {
    hide WholeWordAt, Belongs, Unambiguous, FindWord, NextWord, Rewrite, Edit, LastName;
    hide SkipTo;
    var front, tail := done + s[i..p], s[p + |t.table|..];
    WholeWordEnds(cur, t.table, q);
    Around(done, s, i, p, |t.table|);
    EditAt(t, s, i, p);
    VisitAt(t, cur, |done|, q, front, tail);
    if Belongs(t, s[..p]) {
      RewriteReplaces(t, s, i, done, p, front);
    } else {
      RewriteSkips(t, s, i, done, p, front);
    }
  }

  lemma VisitAt(t: Split, cur: string, pos: nat, q: nat, front: string, tail: string)
    requires t.table != "" && q == FindWord(cur, t.table, pos) && q + |t.table| <= |cur|
    requires front == cur[..q] && tail == cur[q + |t.table|..]
    ensures Rewrite(t, cur, pos) ==
            if Belongs(t, front) then Rewrite(t, front + t.NewName() + tail, |front| + |t.NewName()|)
            else Rewrite(t, cur, |front| + |t.NewName()|)
  {
    hide Belongs, FindWord, Rewrite;
    RewriteAt(t, cur, pos, q);
  }

  lemma Around(done: string, s: string, i: nat, p: nat, n: nat)
    requires i <= p && p + n <= |s|
    ensures var cur, q := done + s[i..], p - i + |done|;
            cur[..q] == done + s[i..p] && cur[q + n..] == s[p + n..]
  {
  }

  lemma {:induction false} RewriteReplaces(t: Split, s: string, i: nat, done: string, p: nat, front: string)
    requires t.Named() && Unambiguous(t) && i <= p <= |s| - |t.table|
    requires WholeWordAt(s, t.table, p) && front == done + s[i..p] && LastName(front) == ""
    ensures Rewrite(t, front + t.NewName() + s[p + |t.table|..], |front| + |t.NewName()|)
            == done + (s[i..p] + t.NewName() + Edit(t, s, p + |t.table|))
    decreases |s| - i, 0
  {
    hide WholeWordAt, Joined, Unambiguous, Rewrite, Edit;
    var e := Edit(t, s, p + |t.table|);
    JoinedAfterReplacing(t, s, p, front);
    RewriteIsEdit(t, s, p + |t.table|, front + t.NewName(), "");
    assert front + t.NewName() + e == done + (s[i..p] + t.NewName() + e);
  }

  lemma {:induction false} RewriteSkips(t: Split, s: string, i: nat, done: string, p: nat, front: string)
    requires t.Named() && Unambiguous(t) && i <= p <= |s| - |t.table|
    requires WholeWordAt(s, t.table, p) && front == done + s[i..p] && LastName(front) == ""
    ensures var j := SkipTo(t, s, p);
            Rewrite(t, done + s[i..], |front| + |t.NewName()|) == done + (s[i..j] + Edit(t, s, j))
    decreases |s| - i, 0
  {
    hide WholeWordAt, Joined, Unambiguous, Rewrite, Edit, LastName;
    var j := SkipTo(t, s, p);
    var e := Edit(t, s, j);
    Rejoin(done, s, i, p, j, e);
    if p + |t.NewName()| <= |s| {
      JoinedAfterSkipping(t, s, p, j, front);
      RewriteIsEdit(t, s, j, front + s[p..j], s[p..j]);
    } else {
      NothingLeft(t, s, done + s[i..], |front| + |t.NewName()|);
      assert s[i..j] + "" == s[i..];
    }
  }

  lemma Rejoin(done: string, s: string, i: nat, p: nat, j: nat, e: string)
    requires i <= p <= j <= |s|
    ensures done + s[i..p] + s[p..j] + s[j..] == done + s[i..]
    ensures done + s[i..p] + s[p..j] + e == done + (s[i..j] + e)
  {
  }

  lemma RewriteAt(t: Split, cur: string, pos: nat, q: nat)
    requires t.table != "" && q == FindWord(cur, t.table, pos)
    ensures q + |t.table| <= |cur|
    ensures Rewrite(t, cur, pos) ==
            if Belongs(t, cur[..q]) then Rewrite(t, cur[..q] + t.NewName() + cur[q + |t.table|..], q + |t.NewName()|)
            else Rewrite(t, cur, q + |t.NewName()|)
  {
    hide WholeWordAt, Belongs, FindWord;
  }

  lemma EditAt(t: Split, s: string, i: nat, p: nat)
    requires t.table != "" && i <= |s| && p == NextWord(s, t.table, i)
    ensures i <= p && p + |t.table| <= |s|
    ensures Edit(t, s, i) ==
            if Belongs(t, s[..p]) then s[i..p] + t.NewName() + Edit(t, s, p + |t.table|)
            else s[i..SkipTo(t, s, p)] + Edit(t, s, SkipTo(t, s, p))
  {
    hide WholeWordAt, Belongs, NextWord;
  }

  lemma NothingLeft(t: Split, s: string, cur: string, pos: nat)
    requires t.table != "" && pos >= |cur|
    ensures Rewrite(t, cur, pos) == cur && Edit(t, s, |s|) == ""
  {
  }

  // ----- Exactly when every occurrence is suffixed

  lemma {:induction false} SuffixedCopies(t: Split, s: string, i: nat, j: nat)
    requires t.table != "" && i <= j <= |s| && forall q :: i <= q < j ==> !Hit(t, s, q)
    ensures Suffixed(t, s, i) == s[i..j] + Suffixed(t, s, j)
    decreases j - i
  {
    hide Hit;
    if i < j {
      SuffixedCopies(t, s, i + 1, j);
      assert s[i..j] == [s[i]] + s[i + 1..j];
    }
  }

  /** No hit starts inside a hit. */
  lemma NoHitInside(t: Split, s: string, p: nat, q: nat)
    requires t.Named() && WholeWordAt(s, t.table, p) && p < q < p + |t.table|
    ensures !WholeWordAt(s, t.table, q)
  {
  }

  /** By how much suffixing lengthens the text. */
  function Gain(t: Split, s: string, i: nat): int
    requires t.table != "" && i <= |s|
  {
    |Suffixed(t, s, i)| - (|s| - i)
  }

  lemma GainAtHit(t: Split, s: string, i: nat)
    requires t.Named() && i < |s| && Hit(t, s, i)
    ensures i + |t.table| <= |s| && Suffixed(t, s, i + 1) == s[i + 1..i + |t.table|] + Suffixed(t, s, i + |t.table|)
  {
    hide WholeWordAt, Belongs, Suffixed;
    WholeWordEnds(s, t.table, i);
    forall q | i + 1 <= q < i + |t.table| ensures !Hit(t, s, q) {
      NoHitInside(t, s, i, q);
    }
    SuffixedCopies(t, s, i + 1, i + |t.table|);
  }

  lemma GainStep(t: Split, s: string, i: nat)
    requires t.Named() && i < |s|
    ensures Gain(t, s, i) == Gain(t, s, i + 1) + if Hit(t, s, i) then |t.id| else 0
  {
    hide Hit;
    if Hit(t, s, i) {
      GainAtHit(t, s, i);
    }
  }

  lemma {:induction false} GainBetween(t: Split, s: string, i: nat, j: nat)
    requires t.Named() && i <= j <= |s|
    ensures Gain(t, s, i) >= Gain(t, s, j)
    ensures (exists q :: i <= q < j && Hit(t, s, q)) ==> Gain(t, s, i) >= Gain(t, s, j) + |t.id|
    decreases j - i
  {
    hide Hit, Gain;
    if i < j {
      GainStep(t, s, i);
      GainBetween(t, s, i + 1, j);
    }
  }

  /** The visited occurrences are all of them exactly when nothing that belongs is skipped. */
  lemma {:induction false} EditSuffixesIff(t: Split, s: string, i: nat)
    requires t.Named() && i <= |s|
    ensures NothingSkipped(t, s, i) ==> Edit(t, s, i) == Suffixed(t, s, i)
    ensures |Edit(t, s, i)| - (|s| - i) <= Gain(t, s, i)
    ensures t.id != "" && !NothingSkipped(t, s, i) ==> |Edit(t, s, i)| - (|s| - i) < Gain(t, s, i)
    decreases |s| - i
  {
    hide WholeWordAt, Belongs;
    var p := NextWord(s, t.table, i);
    if p == -1 {
      SuffixedCopies(t, s, i, |s|);
      assert s[i..] == s[i..] + "";
    } else {
      EditAt(t, s, i, p);
      hide Edit, NextWord, Suffixed, Gain;
      if Belongs(t, s[..p]) {
        EditReplacesIff(t, s, i, p);
      } else {
        EditSkipsIff(t, s, i, p);
      }
    }
  }

  lemma {:induction false} EditReplacesIff(t: Split, s: string, i: nat, p: nat)
    requires t.Named() && i <= p <= |s| - |t.table| && Hit(t, s, p) && forall q :: i <= q < p ==> !Hit(t, s, q)
    ensures var edit := s[i..p] + t.NewName() + Edit(t, s, p + |t.table|);
            && (NothingSkipped(t, s, p + |t.table|) ==> edit == Suffixed(t, s, i))
            && |edit| - (|s| - i) <= Gain(t, s, i)
            && (t.id != "" && !NothingSkipped(t, s, p + |t.table|) ==> |edit| - (|s| - i) < Gain(t, s, i))
    decreases |s| - i, 0
  {
    hide Hit, Edit, NothingSkipped;
    var e := Suffixed(t, s, p + |t.table|);
    EditSuffixesIff(t, s, p + |t.table|);
    SuffixedCopies(t, s, i, p);
    assert Suffixed(t, s, p) == t.NewName() + e;
    assert s[i..p] + (t.NewName() + e) == s[i..p] + t.NewName() + e;
  }

  lemma {:induction false} EditSkipsIff(t: Split, s: string, i: nat, p: nat)
    requires t.Named() && i <= p < |s|
    requires WholeWordAt(s, t.table, p) && !Belongs(t, s[..p]) && forall q :: i <= q < p ==> !Hit(t, s, q)
    ensures var j := SkipTo(t, s, p);
            && var edit := s[i..j] + Edit(t, s, j);
            && (NothingSkipped(t, s, j) && (forall q :: p < q < j ==> !Hit(t, s, q)) ==> edit == Suffixed(t, s, i))
            && |edit| - (|s| - i) <= Gain(t, s, i)
            && (t.id != "" && !(NothingSkipped(t, s, j) && (forall q :: p < q < j ==> !Hit(t, s, q)))
                ==> |edit| - (|s| - i) < Gain(t, s, i))
    decreases |s| - i, 0
  {
    var j := SkipTo(t, s, p);
    assert !Hit(t, s, p);
    hide WholeWordAt, Belongs, Hit;
    EditSuffixesIff(t, s, j);
    GainBetween(t, s, i, j);
    if forall q :: p < q < j ==> !Hit(t, s, q) {
      SuffixedCopies(t, s, i, j);
    }
  }

  /** The rewritten text is the original with every occurrence that belongs to the split database
      suffixed, and nothing else changed, exactly when the cursor skips none of them. */
  lemma RewriteSuffixes(t: Split, s: string)
    requires t.Named() && Unambiguous(t)
    ensures NothingSkipped(t, s, 0) ==> Rewrite(t, s, 0) == Suffixed(t, s, 0)
    ensures t.id != "" && Rewrite(t, s, 0) == Suffixed(t, s, 0) ==> NothingSkipped(t, s, 0)
  {
    assert "" + s[0..] == s && s[..0] == "";
    RewriteIsEdit(t, s, 0, "", "");
    EditSuffixesIff(t, s, 0);
  }

  /** In particular when all occurrences belong to the split database. */
  lemma {:induction false} AllBelonging(t: Split, s: string, i: nat)
    requires t.Named() && i <= |s|
    requires forall q: nat :: WholeWordAt(s, t.table, q) ==> Belongs(t, s[..q])
    ensures NothingSkipped(t, s, i)
    decreases |s| - i
  {
    hide WholeWordAt, Belongs;
    var p := NextWord(s, t.table, i);
    if p != -1 {
      AllBelonging(t, s, p + |t.table|);
    }
  }

  /** "x.t,d.t" keeps its d.t: the cursor skips it behind x.t. */
  lemma SkippedOccurrence(t: Split)
    requires t == Split("d", "t", "_123", false, "")
    ensures Unambiguous(t) && Rewrite(t, "x.t,d.t", 0) != Suffixed(t, "x.t,d.t", 0)
  {
    hide Belongs, WholeWordAt, LastName, Hit;
    var s := "x.t,d.t";
    SoleName("t_123");
    assert t.NewName() == "t_123";
    WordsOfExample();
    OwnersOfExample(t);
    RewriteSuffixes(t, s);
  }

  lemma WordsOfExample()
    ensures var s := "x.t,d.t";
            && !WholeWordAt(s, "t", 0) && !WholeWordAt(s, "t", 1)
            && WholeWordAt(s, "t", 2) && WholeWordAt(s, "t", 6)
  {
  }

  lemma OwnersOfExample(t: Split)
    requires t == Split("d", "t", "_123", false, "")
    ensures var s := "x.t,d.t"; !Belongs(t, s[..2]) && Hit(t, s, 6)
  {
    hide LastName, WholeWordAt;
    var s := "x.t,d.t";
    WordsOfExample();
    SoleName("x");
    SoleName("d");
    BelongsBehindDot(t, "x");
    LastNameJoin("x.t,", "d");
    BelongsBehindDot(t, "x.t,d");
    NoName("x.t,");
    assert "x.t," + "d" == "x.t,d" && s[..2] == "x" + "." && s[..6] == "x.t,d" + ".";
  }

  /** Reading qualifiers off rewritten names is harmless on every text exactly when the split is
      unambiguous, whatever the logic database. */
  lemma UnambiguousIff(t: Split)
    requires t.Named()
    ensures Unambiguous(t) <==> forall s :: Rewrite(t, s, 0) == Edit(t, s, 0)
  {
    hide Unambiguous, Rewrite, Edit;
    if Unambiguous(t) {
      forall s ensures Rewrite(t, s, 0) == Edit(t, s, 0) {
        assert "" + s[0..] == s && s[..0] == "";
        RewriteIsEdit(t, s, 0, "", "");
      }
    } else {
      AmbiguousTextFails(t);
    }
  }

  lemma SoleName(n: string)
    requires AllWord(n)
    ensures LastName(n) == n
  {
  }

  /** In a text front + "." + table, where no name crosses the '.', the table is found. */
  lemma TableBehindDot(t: Split, front: string)
    requires t.Named()
    ensures var s := front + "." + t.table;
            NextWord(s, t.table, |front|) == |front| + 1 == FindWord(s, t.table, |front|)
  {
    hide WholeWordAt, NextWord, FindWord;
    WordBehindDot(front, t.table);
    FoundNext(front + "." + t.table, t.table, |front|);
  }

  lemma FoundNext(s: string, k: string, i: nat)
    requires k != "" && AllWord(k) && !WholeWordAt(s, k, i) && WholeWordAt(s, k, i + 1)
    ensures NextWord(s, k, i) == i + 1 == FindWord(s, k, i)
  {
    hide WholeWordAt, NextWord, FindWord, AllWord;
    FindName(s, k, i);
  }

  lemma WordBehindDot(front: string, k: string)
    requires k != "" && AllWord(k)
    ensures var s := front + "." + k; WholeWordAt(s, k, |front| + 1) && !WholeWordAt(s, k, |front|)
  {
  }

  lemma TableInFront(t: Split, rest: string)
    requires t.Named() && rest != "" && !WordChar(rest[0])
    ensures var s := t.table + rest; NextWord(s, t.table, 0) == 0 == FindWord(s, t.table, 0)
  {
  }

  lemma TableThenDot(t: Split)
    requires t.Named()
    ensures var s := t.table + "." + t.table; NextWord(s, t.table, 0) == 0 == FindWord(s, t.table, 0)
  {
    hide NextWord, FindWord, AllWord;
    TableInFront(t, "." + t.table);
    assert t.table + "." + t.table == t.table + ("." + t.table);
  }

  lemma UnqualifiedBelongs(t: Split, front: string)
    requires front == ""
    ensures Belongs(t, front) <==> t.hasLogicDb && t.logicDb == t.db
  {
  }

  lemma BelongsBehindDot(t: Split, front: string)
    ensures Belongs(t, front + ".") <==> LastName(front) == t.db
  {
  }

  /** A table behind a dot, at the end: its qualifier decides. */
  lemma EditBehindDot(t: Split, front: string, s: string)
    requires t.Named() && s == front + "." + t.table
    ensures Edit(t, s, |front|) == "." + if LastName(front) == t.db then t.NewName() else t.table
  {
    hide FindWord, NextWord, WholeWordAt, Belongs, LastName, Edit, AllWord;
    var k := t.table;
    TableBehindDot(t, front);
    BelongsBehindDot(t, front);
    assert s[..|front| + 1] == front + "." && s[|front|..|front| + 1] == "." && s[|front|..] == "." + k;
    EditAt(t, s, |front|, |front| + 1);
    assert SkipTo(t, s, |front| + 1) == |s| == |front| + 1 + |k|;
    NothingLeft(t, s, "", 0);
    assert "." + t.NewName() + "" == "." + t.NewName() && s[|front|..] + "" == "." + k;
  }

  lemma EditSelfQualified(t: Split)
    requires t.Named() && t.hasLogicDb && t.logicDb == t.db
    ensures Edit(t, t.table + "." + t.table, 0)
            == t.NewName() + "." + if t.table == t.db then t.NewName() else t.table
  {
    hide FindWord, NextWord, WholeWordAt, Belongs, LastName, Edit, AllWord;
    var k := t.table;
    var s := k + "." + k;
    TableThenDot(t);
    UnqualifiedBelongs(t, s[..0]);
    EditAt(t, s, 0, 0);
    SoleName(k);
    EditBehindDot(t, k, s);
  }

  lemma RewriteBehindDot(t: Split, front: string, cur: string)
    requires t.Named() && cur == front + "." + t.table
    ensures Rewrite(t, cur, |front|) == front + "." + if LastName(front) == t.db then t.NewName() else t.table
  {
    hide FindWord, NextWord, WholeWordAt, Belongs, LastName, Rewrite, AllWord;
    var n := t.NewName();
    TableBehindDot(t, front);
    BelongsBehindDot(t, front);
    assert cur[..|front| + 1] == front + "." && cur[|front| + 1 + |t.table|..] == "";
    RewriteAt(t, cur, |front|, |front| + 1);
    var last := front + "." + n + "";
    assert last == front + "." + n;
    NothingLeft(t, "", cur, |front| + 1 + |n|);
    NothingLeft(t, "", last, |front| + 1 + |n|);
  }

  lemma RewriteSelfQualified(t: Split)
    requires t.Named() && t.hasLogicDb && t.logicDb == t.db
    ensures Rewrite(t, t.table + "." + t.table, 0)
            == t.NewName() + "." + if LastName(t.NewName()) == t.db then t.NewName() else t.table
  {
    hide FindWord, NextWord, WholeWordAt, Belongs, LastName, Rewrite, AllWord;
    var k, n := t.table, t.NewName();
    var s, cur := k + "." + k, n + "." + k;
    TableThenDot(t);
    UnqualifiedBelongs(t, s[..0]);
    RewriteAt(t, s, 0, 0);
    assert s[..0] + n + s[|k|..] == cur;
    RewriteBehindDot(t, n, cur);
  }

  /** On "table.table" the second table's qualifier is read off the first's new name. */
  lemma SelfQualified(t: Split)
    requires t.Named() && t.hasLogicDb && t.logicDb == t.db && !Unambiguous(t)
    ensures Rewrite(t, t.table + "." + t.table, 0) != Edit(t, t.table + "." + t.table, 0)
  {
    SoleName(t.table);
    assert t.id == "" ==> t.NewName() == t.table;
    hide Edit, Rewrite, LastName;
    EditSelfQualified(t);
    RewriteSelfQualified(t);
  }

  // ----- Without a logic database

  function TwoBehind(x: string, k: string): string { x + "." + k + "." + k }

  /** Behind a text that ends in the database's name, the first of two tables belongs; the second one's
      qualifier is the first's old name in the original. */
  lemma EditTwoBehind(t: Split, x: string, c: nat)
    requires t.Named() && LastName(x) == t.db && c <= |x| + 1
    requires NextWord(TwoBehind(x, t.table), t.table, c) == |x| + 1
    ensures Edit(t, TwoBehind(x, t.table), c)
            == (x + ".")[c..] + t.NewName() + "." + if t.table == t.db then t.NewName() else t.table
  {
    hide FindWord, NextWord, WholeWordAt, Belongs, LastName, Edit;
    var k, n := t.table, t.NewName();
    var s, front := TwoBehind(x, k), x + "." + k;
    EditAt(t, s, c, |x| + 1);
    assert s[..|x| + 1] == x + "." && s[c..|x| + 1] == (x + ".")[c..];
    BelongsBehindDot(t, x);
    NameBehindDot(x, k);
    SoleName(k);
    EditBehindDot(t, front, s);
    var last := if k == t.db then n else k;
    assert (x + ".")[c..] + n + ("." + last) == (x + ".")[c..] + n + "." + last;
  }

  /** And its new name in the rewritten text. */
  lemma RewriteTwoBehind(t: Split, x: string, c: nat)
    requires t.Named() && LastName(x) == t.db && c <= |x| + 1
    requires FindWord(TwoBehind(x, t.table), t.table, c) == |x| + 1
    ensures Rewrite(t, TwoBehind(x, t.table), c)
            == x + "." + t.NewName() + "." + if LastName(t.NewName()) == t.db then t.NewName() else t.table
  {
    hide FindWord, NextWord, WholeWordAt, Belongs, LastName, Rewrite;
    var k, n := t.table, t.NewName();
    var s, front := TwoBehind(x, k), x + "." + n;
    var cur := front + "." + k;
    RewriteAt(t, s, c, |x| + 1);
    assert s[..|x| + 1] == x + "." && s[|x| + 1 + |k|..] == "." + k;
    BelongsBehindDot(t, x);
    assert x + "." + n + ("." + k) == cur;
    NameBehindDot(x, n);
    RewriteBehindDot(t, front, cur);
  }

  lemma NameBehindDot(x: string, n: string)
    ensures LastName(x + "." + n) == LastName(n)
  {
    LastNameJoin(x + ".", n);
    NoName(x + ".");
    if AllWord(n) {
      SoleName(n);
      assert "" + n == n;
    }
  }

  /** The end of the new name is the database's name: that name in front of two tables. */
  lemma NewNameIsDb(t: Split)
    requires t.Named() && t.table != t.db && LastName(t.NewName()) == t.db
    ensures Rewrite(t, TwoBehind(t.db, t.table), 0) != Edit(t, TwoBehind(t.db, t.table), 0)
  {
    LastNameIsLongest(t.NewName());
    FirstBehindDb(t.db, t.table);
    assert t.id == "" ==> t.NewName() == t.table;
    SoleName(t.table);
    SoleName(t.db);
    FindName(TwoBehind(t.db, t.table), t.table, 0);
    hide Edit, Rewrite, LastName, FindWord, NextWord;
    EditTwoBehind(t, t.db, 0);
    RewriteTwoBehind(t, t.db, 0);
    assert (t.db + ".")[0..] == t.db + ".";
  }

  lemma FirstBehindDb(db: string, k: string)
    requires AllWord(db) && AllWord(k) && k != "" && db != k
    ensures NextWord(TwoBehind(db, k), k, 0) == |db| + 1
  {
    var s := TwoBehind(db, k);
    forall q | 0 <= q < |db| + 1 ensures !WholeWordAt(s, k, q) {
      NotInFront(db, k, q);
    }
    WordAfterDot(db, k);
    hide WholeWordAt;
  }

  lemma WordAfterDot(x: string, k: string)
    requires AllWord(k) && k != ""
    ensures WholeWordAt(TwoBehind(x, k), k, |x| + 1)
  {
    var s := TwoBehind(x, k);
    assert s[|x| + 1..|x| + 1 + |k|] == k && s[|x|] == '.' && s[|x| + 1 + |k|] == '.';
  }

  lemma NotInFront(db: string, k: string, q: nat)
    requires AllWord(db) && AllWord(k) && k != "" && db != k && q <= |db|
    ensures !WholeWordAt(TwoBehind(db, k), k, q)
  {
    var s := TwoBehind(db, k);
    assert s[|db|] == '.' && s[..|db|] == db;
    assert q + |k| <= |s| ==> s[q..q + |k|][0] == s[q];
    if q == 0 {
      assert |db| < |k| <= |s| ==> s[0..|k|][|db|] == '.';
      assert |k| < |db| ==> s[|k|] == db[|k|];
    } else if q < |db| {
      assert s[q - 1] == db[q - 1];
    }
  }

  /** The table's name is the database's: the table twice, the second out of the cursor's sight, in
      front of two tables. */
  function OutOfSight(t: Split): string
    requires t.id != ""
  {
    if |t.id| == 1 then t.table else t.table + Commas(|t.id| - 1) + t.table
  }

  function Commas(n: nat): string { seq(n, _ => ',') }

  lemma TableIsDb(t: Split)
    requires t.Named() && t.table == t.db && LastName(t.NewName()) != t.db && !(t.hasLogicDb && t.logicDb == t.db)
    ensures t.id != "" && Rewrite(t, TwoBehind(OutOfSight(t), t.table), 0) != Edit(t, TwoBehind(OutOfSight(t), t.table), 0)
  {
    SoleName(t.table);
    assert t.id == "" ==> t.NewName() == t.table;
    hide Edit, Rewrite, LastName, FindWord, NextWord, WholeWordAt, OutOfSight, AllWord;
    OutOfSightSkipped(t);
    OutOfSightNamesTable(t);
    OutOfSightEnds(t);
    var k, n, x := t.table, t.NewName(), OutOfSight(t);
    FindName(TwoBehind(x, k), k, |n|);
    EditTwoBehind(t, x, |n|);
    RewriteTwoBehind(t, x, |n|);
    assert |Edit(t, TwoBehind(x, k), 0)| > |Rewrite(t, TwoBehind(x, k), 0)|;
  }

  /** The unqualified table in front belongs to nobody, and the cursor skips what is close behind. */
  lemma OutOfSightSkipped(t: Split)
    requires t.Named() && t.id != "" && !(t.hasLogicDb && t.logicDb == t.db)
    ensures var s, c := TwoBehind(OutOfSight(t), t.table), |t.NewName()|;
            c <= |s| && Rewrite(t, s, 0) == Rewrite(t, s, c) && Edit(t, s, 0) == s[0..c] + Edit(t, s, c)
  {
    hide Edit, Rewrite, LastName, FindWord, NextWord, WholeWordAt, OutOfSight, Belongs, AllWord;
    OutOfSightStarts(t);
    OutOfSightNamesTable(t);
    var s := TwoBehind(OutOfSight(t), t.table);
    FindName(s, t.table, 0);
    UnqualifiedBelongs(t, s[..0]);
    RewriteAt(t, s, 0, 0);
    EditAt(t, s, 0, 0);
  }

  lemma OutOfSightStarts(t: Split)
    requires t.Named() && t.id != ""
    ensures NextWord(TwoBehind(OutOfSight(t), t.table), t.table, 0) == 0
  {
    hide NextWord, FindWord;
    var k := t.table;
    var rest := if |t.id| == 1 then "." + k + "." + k else Commas(|t.id| - 1) + k + "." + k + "." + k;
    TableInFront(t, rest);
    assert TwoBehind(OutOfSight(t), k) == k + rest;
  }

  lemma OutOfSightNamesTable(t: Split)
    requires t.Named() && t.id != ""
    ensures LastName(OutOfSight(t)) == t.table && |t.NewName()| <= |OutOfSight(t)| + 1
  {
    hide LastName;
    var k := t.table;
    SoleName(k);
    if |t.id| > 1 {
      var front := k + Commas(|t.id| - 1);
      assert front[|front| - 1] == ',';
      NoName(front);
      LastNameJoin(front, k);
      assert "" + k == k;
    }
  }

  lemma OutOfSightEnds(t: Split)
    requires t.Named() && t.id != ""
    ensures var x := OutOfSight(t); NextWord(TwoBehind(x, t.table), t.table, |t.NewName()|) == |x| + 1
  {
    var k, x, n := t.table, OutOfSight(t), |t.NewName()|;
    var s := TwoBehind(x, k);
    WordAfterDot(x, k);
    forall q | n <= q < |x| + 1 ensures !WholeWordAt(s, k, q) {
      NotOutOfSight(t, q);
    }
    hide WholeWordAt, OutOfSight;
  }

  lemma NotOutOfSight(t: Split, q: nat)
    requires t.Named() && t.id != "" && |t.NewName()| <= q <= |OutOfSight(t)|
    ensures !WholeWordAt(TwoBehind(OutOfSight(t), t.table), t.table, q)
  {
    var k, x := t.table, OutOfSight(t);
    var s := TwoBehind(x, k);
    assert |t.id| > 1;
    assert x[|k| + |t.id| - 1..] == k && s[..|x|] == x && s[|x|] == '.';
    if q == |x| {
      assert s[q..q + |k|][0] == '.';
    } else {
      assert s[q - 1] == x[q - 1] == x[|k| + |t.id| - 1..][q - |k| - |t.id|];
    }
  }

  /** A text on which an ambiguous split is rewritten otherwise than edited. */
  function AmbiguousText(t: Split): string
    requires t.table == t.db ==> t.id != ""
  {
    if t.hasLogicDb && t.logicDb == t.db then t.table + "." + t.table
    else TwoBehind(if t.table != t.db then t.db else OutOfSight(t), t.table)
  }

  lemma AmbiguousTextFails(t: Split)
    requires t.Named() && !Unambiguous(t)
    ensures t.table == t.db ==> t.id != ""
    ensures Rewrite(t, AmbiguousText(t), 0) != Edit(t, AmbiguousText(t), 0)
  {
    SoleName(t.table);
    assert t.id == "" ==> t.NewName() == t.table;
    hide Edit, Rewrite, LastName, OutOfSight;
    if t.hasLogicDb && t.logicDb == t.db {
      SelfQualified(t);
    } else if t.table != t.db {
      NewNameIsDb(t);
    } else {
      TableIsDb(t);
    }
  }
}
