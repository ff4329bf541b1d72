/**
 * The access-token table (server/acl.py).
 *
 * The two JSON files become the two sequence fields of `TokenStore`: `active`
 * (tokens.json) and `expired` (expired_tokens.json). Loading a file is reading
 * a field and saving it is assigning the field. The clock reading `now` and
 * the random picks of `generate_token` are parameters.
 */
module Acl {
  import opened Wrappers
  import opened Text
  import opened Seqs

  const TOKEN_LENGTH: nat := 6
  const SECONDS_PER_HOUR: int := 3600
  const SECONDS_PER_DAY: int := 24 * 3600

  /** The `i`-th character of `string.ascii_uppercase + string.digits`. */
  function TokenChar(i: nat): char
    requires i < 36
  {
    if i < 26 then ('A' as int + i) as char else ('0' as int + i - 26) as char
  }

  /** `TOKEN_CHARS`: `string.ascii_uppercase + string.digits`. */
  const TOKEN_CHARS: string := "ABCDEFGHIJKLMNOPQRSTUVWXYZ0123456789"

  /** The 26 letters come first, in alphabetical order, then the 10 digits in order. */
  lemma TokenCharsAt(i: nat)
    requires i < |TOKEN_CHARS|
    ensures TOKEN_CHARS[i] == TokenChar(i)
  {
  }

  /** A string `generate_token` can produce: six characters, each from `TOKEN_CHARS`. */
  predicate IsTokenShape(token: string) {
    |token| == TOKEN_LENGTH && forall i | 0 <= i < |token| :: token[i] in TOKEN_CHARS
  }

  /** `generate_token()`, given the positions in `TOKEN_CHARS` that `random.choice` picked. */
  function GenerateToken(picks: seq<nat>): (token: string)
    requires |picks| == TOKEN_LENGTH && forall i | 0 <= i < |picks| :: picks[i] < |TOKEN_CHARS|
    ensures IsTokenShape(token)
  {
    seq(TOKEN_LENGTH, i requires 0 <= i < TOKEN_LENGTH => TOKEN_CHARS[picks[i]])
  }

  /** The position of a token character in `TOKEN_CHARS`. */
  function CharIndex(c: char): nat {
    if 'A' <= c <= 'Z' then c as int - 'A' as int
    else if '0' <= c <= '9' then c as int - '0' as int + 26
    else 0
  }

  function PicksOf(token: string): (picks: seq<nat>)
    ensures |picks| == |token|
  {
    seq(|token|, i requires 0 <= i < |token| => CharIndex(token[i]))
  }

  /**
   * Token generation is a bijection between pick sequences and token-shaped
   * strings: every six-character string over `TOKEN_CHARS` is produced by
   * exactly one sequence of picks.
   */
  lemma GenerateTokenRoundTrip(picks: seq<nat>, token: string)
    requires |picks| == TOKEN_LENGTH && forall i | 0 <= i < |picks| :: picks[i] < |TOKEN_CHARS|
    ensures PicksOf(GenerateToken(picks)) == picks
    ensures IsTokenShape(token) ==>
      var p := PicksOf(token);
      (forall i | 0 <= i < |p| :: p[i] < |TOKEN_CHARS|) && GenerateToken(p) == token
  {
    PicksOfGenerate(picks);
    if IsTokenShape(token) {
      GenerateOfPicks(token);
    }
  }

  /** Reading back the positions of a generated token gives the picks. */
  lemma PicksOfGenerate(picks: seq<nat>)
    requires |picks| == TOKEN_LENGTH && forall i | 0 <= i < |picks| :: picks[i] < |TOKEN_CHARS|
    ensures PicksOf(GenerateToken(picks)) == picks
  {
    var t := GenerateToken(picks);
    forall i | 0 <= i < TOKEN_LENGTH ensures PicksOf(t)[i] == picks[i] {
      TokenCharsAt(picks[i]);
    }
  }

  /** Every token-shaped string is generated from its own positions. */
  lemma GenerateOfPicks(token: string)
    requires IsTokenShape(token)
    ensures var p := PicksOf(token);
      (forall i | 0 <= i < |p| :: p[i] < |TOKEN_CHARS|) && GenerateToken(p) == token
  {
    var p := PicksOf(token);
    forall i | 0 <= i < |p| ensures p[i] < |TOKEN_CHARS| && TOKEN_CHARS[p[i]] == token[i] {
      CharIndexAt(token[i]);
    }
  }

  /** `CharIndex` finds the position of a token character. */
  lemma CharIndexAt(c: char)
    requires c in TOKEN_CHARS
    ensures CharIndex(c) < |TOKEN_CHARS| && TOKEN_CHARS[CharIndex(c)] == c
  {
    var k :| 0 <= k < |TOKEN_CHARS| && TOKEN_CHARS[k] == c;
    TokenCharsAt(k);
  }

  /** None of the token characters is a lower-case letter, so upper-casing a token leaves it as it is. */
  lemma TokenShapeIsUpper(token: string)
    requires IsTokenShape(token)
    ensures Upper(token) == token
    ensures Upper(Lower(token)) == token
  {
    forall i | 0 <= i < |token| ensures UpperChar(token[i]) == token[i] && UpperChar(LowerChar(token[i])) == token[i] {
      var k :| 0 <= k < 36 && TOKEN_CHARS[k] == token[i];
      TokenCharsAt(k);
    }
  }

  /**
   * One stored record. `expiredAt` is set when the record moves to the expired
   * list; records read from the active list normally have none.
   */
  datatype TokenRecord = TokenRecord(email: string, token: string, expiry: int, created: int, expiredAt: Option<int>)

  datatype Status = Active | Expired

  /** A copy of a record tagged with the list it came from. */
  datatype HistoryEntry = HistoryEntry(record: TokenRecord, status: Status)

  // ---- Filtering ----

  /** The elements of `s` that `keep` accepts, in order (a list comprehension with a condition). */
  function Filter<T(!new)>(s: seq<T>, keep: T -> bool): (kept: seq<T>)
    ensures |kept| <= |s|
  {
    if s == [] then []
    else
      var last := s[|s| - 1];
      Filter(s[..|s| - 1], keep) + if keep(last) then [last] else []
  }

  /** The filter keeps exactly the elements that pass the test. */
  lemma {:induction false} FilterMembers<T(!new)>(s: seq<T>, keep: T -> bool)
    ensures forall x :: x in Filter(s, keep) <==> x in s && keep(x)
  {
    if s != [] {
      var init, last := s[..|s| - 1], s[|s| - 1];
      FilterMembers(init, keep);
      assert s == init + [last];
    }
  }

  lemma FilterSnoc<T(!new)>(s: seq<T>, x: T, keep: T -> bool)
    ensures Filter(s + [x], keep) == Filter(s, keep) + if keep(x) then [x] else []
  {
    assert (s + [x])[..|s|] == s;
  }

  lemma {:induction false} FilterAppend<T(!new)>(a: seq<T>, b: seq<T>, keep: T -> bool)
    ensures Filter(a + b, keep) == Filter(a, keep) + Filter(b, keep)
    decreases |b|
  {
    if b == [] {
      assert a + b == a;
    } else {
      var b', x := b[..|b| - 1], b[|b| - 1];
      assert b == b' + [x] && a + b == (a + b') + [x];
      FilterSnoc(a + b', x, keep);
      FilterSnoc(b', x, keep);
      FilterAppend(a, b', keep);
    }
  }

  /** Filtering away nothing returns the sequence itself. */
  lemma {:induction false} FilterKeepsAll<T(!new)>(s: seq<T>, keep: T -> bool)
    requires forall x <- s :: keep(x)
    ensures Filter(s, keep) == s
  {
    if s != [] {
      var init := s[..|s| - 1];
      assert forall x <- init :: x in s;
      assert s[|s| - 1] in s;
      FilterKeepsAll(init, keep);
      assert s == init + [s[|s| - 1]];
    }
  }

  /** When the filter keeps as many elements as there are, it kept them all. */
  lemma {:induction false} FilterSameLength<T(!new)>(s: seq<T>, keep: T -> bool)
    requires |Filter(s, keep)| == |s|
    ensures Filter(s, keep) == s
  {
    if s != [] {
      var init, last := s[..|s| - 1], s[|s| - 1];
      assert |Filter(init, keep)| <= |init|;
      FilterSameLength(init, keep);
      assert s == init + [last];
    }
  }

  /** Two complementary filters split a sequence without losing or duplicating any element. */
  lemma {:induction false} FilterPartition<T(!new)>(s: seq<T>, keep: T -> bool, drop: T -> bool)
    requires forall x :: drop(x) == !keep(x)
    ensures multiset(Filter(s, keep)) + multiset(Filter(s, drop)) == multiset(s)
    ensures |Filter(s, keep)| + |Filter(s, drop)| == |s|
  {
    if s != [] {
      var init, last := s[..|s| - 1], s[|s| - 1];
      FilterPartition(init, keep, drop);
      SplitLast(s);
      FilterSnoc(init, last, keep);
      FilterSnoc(init, last, drop);
      if keep(last) {
        assert Filter(s, drop) == Filter(init, drop) + [];
      } else {
        assert Filter(s, keep) == Filter(init, keep) + [];
      }
    }
  }

  function HasEmail(email: string): TokenRecord -> bool {
    (r: TokenRecord) => r.email == email
  }

  function OtherEmail(email: string): TokenRecord -> bool {
    (r: TokenRecord) => r.email != email
  }

  /** Still valid at `now`: `t.get("expiry", 0) > current_time`. */
  function LiveAt(now: int): TokenRecord -> bool {
    (r: TokenRecord) => r.expiry > now
  }

  function DeadAt(now: int): TokenRecord -> bool {
    (r: TokenRecord) => r.expiry <= now
  }

  /** Kept by the purge: `t.get("expired_at", 0) > cutoff_time`. */
  function RecentAfter(cutoff: int): TokenRecord -> bool {
    (r: TokenRecord) => r.expiredAt.GetOr(0) > cutoff
  }

  function CreatedAt(key: int): HistoryEntry -> bool {
    (e: HistoryEntry) => e.record.created == key
  }

  // ---- create_token ----

  /** The active list after `create_token`: the records of other emails, then the new record. */
  function AfterCreate(active: seq<TokenRecord>, record: TokenRecord): seq<TokenRecord> {
    Filter(active, OtherEmail(record.email)) + [record]
  }

  /** No two active records share an email. */
  predicate UniqueEmails(records: seq<TokenRecord>) {
    forall i, j | 0 <= i < j < |records| :: records[i].email != records[j].email
  }

  /**
   * After `create_token`, the email has exactly one record, the new one, and
   * it is the last; the records of every other email are the same records in
   * the same order as before.
   */
  lemma AfterCreateRecords(active: seq<TokenRecord>, record: TokenRecord, other: string)
    requires other != record.email
    ensures Filter(AfterCreate(active, record), HasEmail(record.email)) == [record]
    ensures Filter(AfterCreate(active, record), HasEmail(other)) == Filter(active, HasEmail(other))
    ensures var after := AfterCreate(active, record); after[|after| - 1] == record
  {
    var kept := Filter(active, OtherEmail(record.email));
    FilterMembers(active, OtherEmail(record.email));
    FilterSnoc(kept, record, HasEmail(record.email));
    FilterKeepsNone(kept, HasEmail(record.email));
    assert [] + [record] == [record];
    FilterSnoc(kept, record, HasEmail(other));
    FilterOfFilter(active, record.email, other);
    assert Filter(kept, HasEmail(other)) + [] == Filter(kept, HasEmail(other));
  }

  /** Filtering with a test no element passes leaves nothing. */
  lemma {:induction false} FilterKeepsNone<T(!new)>(s: seq<T>, keep: T -> bool)
    requires forall x <- s :: !keep(x)
    ensures Filter(s, keep) == []
  {
    if s != [] {
      var init := s[..|s| - 1];
      assert forall x <- init :: x in s;
      assert s[|s| - 1] in s;
      FilterKeepsNone(init, keep);
    }
  }

  lemma {:induction false} FilterOfFilter(s: seq<TokenRecord>, dropped: string, other: string)
    requires other != dropped
    ensures Filter(Filter(s, OtherEmail(dropped)), HasEmail(other)) == Filter(s, HasEmail(other))
  {
    if s != [] {
      var init, last := s[..|s| - 1], s[|s| - 1];
      assert s == init + [last];
      FilterOfFilter(init, dropped, other);
      FilterSnoc(init, last, OtherEmail(dropped));
      FilterSnoc(init, last, HasEmail(other));
      var inner := Filter(init, OtherEmail(dropped));
      if last.email != dropped {
        FilterSnoc(inner, last, HasEmail(other));
      } else {
        assert inner + [] == inner;
        assert Filter(init, HasEmail(other)) + [] == Filter(init, HasEmail(other));
      }
    }
  }

  /** Filtering keeps the emails of a list unique. */
  lemma {:induction false} FilterKeepsUnique(s: seq<TokenRecord>, keep: TokenRecord -> bool)
    requires UniqueEmails(s)
    ensures UniqueEmails(Filter(s, keep))
  {
    if s != [] {
      var init, last := s[..|s| - 1], s[|s| - 1];
      assert UniqueEmails(init) by {
        forall i, j | 0 <= i < j < |init| ensures init[i].email != init[j].email {
          assert init[i] == s[i] && init[j] == s[j];
        }
      }
      FilterKeepsUnique(init, keep);
      if keep(last) {
        var f := Filter(init, keep);
        FilterMembers(init, keep);
        forall x <- f ensures x.email != last.email {
          var k :| 0 <= k < |init| && init[k] == x;
          assert s[k] == x;
        }
        AppendUnique(f, last);
      }
    }
  }

  /** Adding a record whose email is new keeps the emails unique. */
  lemma AppendUnique(s: seq<TokenRecord>, record: TokenRecord)
    requires UniqueEmails(s) && forall x <- s :: x.email != record.email
    ensures UniqueEmails(s + [record])
  {
    var after := s + [record];
    forall i, j | 0 <= i < j < |after| ensures after[i].email != after[j].email {
      if j == |s| {
        assert after[i] in s;
      } else {
        assert after[i] == s[i] && after[j] == s[j];
      }
    }
  }

  /** `create_token` keeps the emails of the active list unique. */
  lemma AfterCreateKeepsEmailsUnique(active: seq<TokenRecord>, record: TokenRecord)
    requires UniqueEmails(active)
    ensures UniqueEmails(AfterCreate(active, record))
  {
    FilterKeepsUnique(active, OtherEmail(record.email));
    FilterMembers(active, OtherEmail(record.email));
    AppendUnique(Filter(active, OtherEmail(record.email)), record);
  }

  // ---- validate_token and get_email_for_token ----

  /** `validate_token(token)` against an active list at time `now`. */
  predicate IsValid(active: seq<TokenRecord>, token: string, now: int) {
    token != [] && exists r <- active :: r.token == Upper(token) && r.expiry > now
  }

  /** The first record carrying `token`, if any. */
  function FirstMatch(records: seq<TokenRecord>, token: string): (found: Option<TokenRecord>)
    ensures found.Some? ==> found.value in records && found.value.token == token
    ensures found.None? <==> forall r <- records :: r.token != token
  {
    if records == [] then None
    else if records[0].token == token then Some(records[0])
    else
      assert forall r <- records[1..] :: r in records;
      assert forall r <- records :: r == records[0] || r in records[1..];
      FirstMatch(records[1..], token)
  }

  /** `get_email_for_token(token)`: the active list is searched first, then the expired list. */
  function LookupEmail(active: seq<TokenRecord>, expired: seq<TokenRecord>, token: string): Option<string> {
    if token == [] then None
    else
      match FirstMatch(active, Upper(token))
      case Some(r) => Some(r.email)
      case None =>
        match FirstMatch(expired, Upper(token))
        case Some(r) => Some(r.email)
        case None => None
  }

  /** `FirstMatch` finds the match of smallest position. */
  lemma {:induction false} FirstMatchIsFirst(records: seq<TokenRecord>, token: string, i: nat)
    requires i < |records| && records[i].token == token
    requires forall j | 0 <= j < i :: records[j].token != token
    ensures FirstMatch(records, token) == Some(records[i])
  {
    if i > 0 {
      assert forall j | 0 <= j < i - 1 :: records[1..][j] == records[j + 1];
      FirstMatchIsFirst(records[1..], token, i - 1);
    }
  }

  // ---- cleanup_tokens ----

  function Stamp(record: TokenRecord, now: int): TokenRecord {
    record.(expiredAt := Some(now))
  }

  /** Every record with `expired_at` set to `now`. */
  function StampAll(records: seq<TokenRecord>, now: int): (stamped: seq<TokenRecord>)
    ensures |stamped| == |records|
  {
    if records == [] then []
    else StampAll(records[..|records| - 1], now) + [Stamp(records[|records| - 1], now)]
  }

  lemma {:induction false} StampAllAt(records: seq<TokenRecord>, now: int)
    ensures forall i | 0 <= i < |records| :: StampAll(records, now)[i] == Stamp(records[i], now)
  {
    if records != [] {
      StampAllAt(records[..|records| - 1], now);
    }
  }

  /**
   * The cleanup neither loses nor duplicates a record: the records that stay
   * active and the ones that move (before stamping) together make up the old
   * active list; the stay-active ones are valid after `now`, the moved ones are
   * not, and each moved record differs from its original in `expiredAt` only,
   * which is `now`.
   */
  lemma CleanupConserves(active: seq<TokenRecord>, now: int)
    ensures multiset(Filter(active, LiveAt(now))) + multiset(Filter(active, DeadAt(now))) == multiset(active)
    ensures |Filter(active, LiveAt(now))| + |StampAll(Filter(active, DeadAt(now)), now)| == |active|
    ensures forall r <- Filter(active, LiveAt(now)) :: r.expiry > now
    ensures var moved := Filter(active, DeadAt(now));
      forall i | 0 <= i < |moved| ::
        && moved[i].expiry <= now
        && StampAll(moved, now)[i] == moved[i].(expiredAt := Some(now))
  {
    FilterPartition(active, LiveAt(now), DeadAt(now));
    FilterMembers(active, LiveAt(now));
    FilterMembers(active, DeadAt(now));
    var moved := Filter(active, DeadAt(now));
    StampAllAt(moved, now);
    forall i | 0 <= i < |moved| ensures moved[i].expiry <= now {
      assert moved[i] in moved;
    }
  }

  /** Cleanup at `now` does not change which tokens are valid at any later time. */
  lemma CleanupKeepsValidity(active: seq<TokenRecord>, now: int, token: string, later: int)
    requires later >= now
    ensures IsValid(Filter(active, LiveAt(now)), token, later) == IsValid(active, token, later)
  {
    FilterMembers(active, LiveAt(now));
    if IsValid(active, token, later) {
      var r :| r in active && r.token == Upper(token) && r.expiry > later;
      FilterMembers(active, LiveAt(now));
      assert r in Filter(active, LiveAt(now));
    }
  }

  /** Cleanup keeps "at most one active record per e-mail". */
  lemma CleanupKeepsEmailsUnique(active: seq<TokenRecord>, now: int)
    requires UniqueEmails(active)
    ensures UniqueEmails(Filter(active, LiveAt(now)))
  {
    FilterKeepsUnique(active, LiveAt(now));
  }

  /** Nothing expired: every record stays active, in its place. */
  lemma CleanupWithNothingExpired(active: seq<TokenRecord>, now: int)
    requires Filter(active, DeadAt(now)) == []
    ensures Filter(active, LiveAt(now)) == active
    ensures forall r <- active :: r.expiry > now
  {
    FilterPartition(active, LiveAt(now), DeadAt(now));
    FilterSameLength(active, LiveAt(now));
    FilterMembers(active, LiveAt(now));
  }

  // ---- get_tokens_for_email and get_token_history ----

  /** Copies of the records, each tagged with `status`. */
  function Tag(records: seq<TokenRecord>, status: Status): (entries: seq<HistoryEntry>)
    ensures |entries| == |records|
  {
    if records == [] then []
    else Tag(records[..|records| - 1], status) + [HistoryEntry(records[|records| - 1], status)]
  }

  lemma {:induction false} TagAt(records: seq<TokenRecord>, status: Status)
    ensures forall i | 0 <= i < |records| :: Tag(records, status)[i] == HistoryEntry(records[i], status)
  {
    if records != [] {
      TagAt(records[..|records| - 1], status);
    }
  }

  /** Newest first: `created` never increases along the sequence. */
  predicate NewestFirst(entries: seq<HistoryEntry>) {
    forall i, j | 0 <= i < j < |entries| :: entries[i].record.created >= entries[j].record.created
  }

  /** Puts `e` after every entry created at or after it, and before the first older one. */
  function Insert(sorted: seq<HistoryEntry>, e: HistoryEntry): (r: seq<HistoryEntry>)
    ensures multiset(r) == multiset(sorted) + multiset{e}
    ensures |r| == |sorted| + 1
  {
    if sorted == [] || sorted[|sorted| - 1].record.created >= e.record.created then sorted + [e]
    else
      assert sorted == sorted[..|sorted| - 1] + [sorted[|sorted| - 1]];
      Insert(sorted[..|sorted| - 1], e) + [sorted[|sorted| - 1]]
  }

  /**
   * `list.sort(key=created, reverse=True)`: a stable sort into newest-first
   * order, written as an insertion sort.
   */
  function SortNewestFirst(entries: seq<HistoryEntry>): (sorted: seq<HistoryEntry>)
    ensures |sorted| == |entries|
  {
    if entries == [] then []
    else Insert(SortNewestFirst(entries[..|entries| - 1]), entries[|entries| - 1])
  }

  lemma {:induction false} InsertSorted(sorted: seq<HistoryEntry>, e: HistoryEntry)
    requires NewestFirst(sorted)
    ensures NewestFirst(Insert(sorted, e))
    ensures forall x <- Insert(sorted, e) :: x == e || x in sorted
  {
    if sorted == [] || sorted[|sorted| - 1].record.created >= e.record.created {
    } else {
      var init, last := sorted[..|sorted| - 1], sorted[|sorted| - 1];
      NewestFirstInit(sorted);
      InsertSorted(init, e);
      var r := Insert(init, e);
      forall x <- r ensures x.record.created >= last.record.created {
        if x != e {
          var k :| 0 <= k < |init| && init[k] == x;
          assert sorted[k] == x;
        }
      }
      var out := r + [last];
      forall i, j | 0 <= i < j < |out| ensures out[i].record.created >= out[j].record.created {
        if j == |out| - 1 {
          assert out[i] in r;
        }
      }
      forall x <- out ensures x == e || x in sorted {
        if x != last { assert x in r; }
      }
    }
  }

  lemma NewestFirstInit(sorted: seq<HistoryEntry>)
    requires sorted != [] && NewestFirst(sorted)
    ensures NewestFirst(sorted[..|sorted| - 1])
  {
    var init := sorted[..|sorted| - 1];
    forall i, j | 0 <= i < j < |init| ensures init[i].record.created >= init[j].record.created {
      assert init[i] == sorted[i] && init[j] == sorted[j];
    }
  }

  /** Two pieces of which at least one is empty can be appended in either order. */
  lemma SwapEmpty(base: seq<HistoryEntry>, p: seq<HistoryEntry>, q: seq<HistoryEntry>)
    requires p == [] || q == []
    ensures (base + p) + q == (base + q) + p
  {
    if p == [] {
      assert base + p == base && q + p == q;
    } else {
      assert base + q == base && (base + p) + q == base + p;
    }
  }

  lemma {:induction false} InsertStable(sorted: seq<HistoryEntry>, e: HistoryEntry, key: int)
    requires NewestFirst(sorted)
    ensures Filter(Insert(sorted, e), CreatedAt(key)) == Filter(sorted, CreatedAt(key)) + if e.record.created == key then [e] else []
  {
    if sorted == [] || sorted[|sorted| - 1].record.created >= e.record.created {
      FilterSnoc(sorted, e, CreatedAt(key));
    } else {
      var init, last := sorted[..|sorted| - 1], sorted[|sorted| - 1];
      NewestFirstInit(sorted);
      InsertStable(init, e, key);
      var ins := Insert(init, e);
      FilterSnoc(ins, last, CreatedAt(key));
      var fe: seq<HistoryEntry> := if e.record.created == key then [e] else [];
      var fl: seq<HistoryEntry> := if last.record.created == key then [last] else [];
      SwapEmpty(Filter(init, CreatedAt(key)), fe, fl);
    }
  }

  /** The sort is newest first and a permutation of its input. */
  lemma {:induction false} SortNewestFirstSorted(entries: seq<HistoryEntry>)
    ensures NewestFirst(SortNewestFirst(entries))
    ensures multiset(SortNewestFirst(entries)) == multiset(entries)
  {
    if entries != [] {
      var init, last := entries[..|entries| - 1], entries[|entries| - 1];
      assert entries == init + [last];
      SortNewestFirstSorted(init);
      InsertSorted(SortNewestFirst(init), last);
    }
  }

  /** The sort is stable: entries created at the same time keep their relative order. */
  lemma {:induction false} SortNewestFirstStable(entries: seq<HistoryEntry>, key: int)
    ensures Filter(SortNewestFirst(entries), CreatedAt(key)) == Filter(entries, CreatedAt(key))
  {
    if entries != [] {
      var init, last := entries[..|entries| - 1], entries[|entries| - 1];
      assert entries == init + [last];
      SortNewestFirstStable(init, key);
      SortNewestFirstSorted(init);
      InsertStable(SortNewestFirst(init), last, key);
      FilterSnoc(init, last, CreatedAt(key));
    }
  }

  /** What `get_tokens_for_email(email)` returns. */
  function TokensOf(active: seq<TokenRecord>, expired: seq<TokenRecord>, email: string): seq<HistoryEntry> {
    if email == [] then []
    else SortNewestFirst(Tag(Filter(active, HasEmail(email)), Active) + Tag(Filter(expired, HasEmail(email)), Expired))
  }

  /** Python's `s[:limit]`: a negative limit counts from the end. */
  function PrefixUpTo<T(!new)>(s: seq<T>, limit: int): (r: seq<T>)
    ensures |r| <= |s| && r == s[..|r|]
    ensures limit >= 0 ==> |r| == if limit < |s| then limit else |s|
    ensures limit < 0 ==> |r| == if |s| + limit > 0 then |s| + limit else 0
  {
    if limit >= 0 then (if limit < |s| then s[..limit] else s)
    else if |s| + limit > 0 then s[..|s| + limit]
    else []
  }

  /** What `get_token_history(limit)` returns. */
  function History(active: seq<TokenRecord>, expired: seq<TokenRecord>, limit: int): seq<HistoryEntry> {
    PrefixUpTo(SortNewestFirst(Tag(active, Active) + Tag(expired, Expired)), limit)
  }

  lemma {:induction false} TagMembers(records: seq<TokenRecord>, status: Status, e: HistoryEntry)
    ensures e in Tag(records, status) <==> e.status == status && e.record in records
  {
    TagAt(records, status);
    if e in Tag(records, status) {
      var i :| 0 <= i < |records| && Tag(records, status)[i] == e;
    }
    if e.status == status && e.record in records {
      var i :| 0 <= i < |records| && records[i] == e.record;
      assert Tag(records, status)[i] == e;
    }
  }

  /**
   * `get_tokens_for_email`: nothing for an empty email; otherwise exactly the
   * records of that email from both lists, tagged with their list, newest
   * first, and for equal creation times the active ones before the expired
   * ones, each list's in its stored order.
   */
  lemma TokensOfCorrect(active: seq<TokenRecord>, expired: seq<TokenRecord>, email: string, key: int)
    ensures email == [] ==> TokensOf(active, expired, email) == []
    ensures email != [] ==>
      var r := TokensOf(active, expired, email);
      && NewestFirst(r)
      && (forall e :: e in r <==> (e.record.email == email &&
            ((e.status == Active && e.record in active) || (e.status == Expired && e.record in expired))))
      && Filter(r, CreatedAt(key)) ==
           Filter(Tag(Filter(active, HasEmail(email)), Active), CreatedAt(key)) +
           Filter(Tag(Filter(expired, HasEmail(email)), Expired), CreatedAt(key))
  {
    if email != [] {
      var a := Tag(Filter(active, HasEmail(email)), Active);
      var x := Tag(Filter(expired, HasEmail(email)), Expired);
      SortNewestFirstSorted(a + x);
      SortNewestFirstStable(a + x, key);
      FilterAppend(a, x, CreatedAt(key));
      TokensOfMembers(active, expired, email);
    }
  }

  lemma TokensOfMembers(active: seq<TokenRecord>, expired: seq<TokenRecord>, email: string)
    requires email != []
    ensures forall e :: e in TokensOf(active, expired, email) <==> (e.record.email == email &&
      ((e.status == Active && e.record in active) || (e.status == Expired && e.record in expired)))
  {
    var fa, fx := Filter(active, HasEmail(email)), Filter(expired, HasEmail(email));
    var a, x := Tag(fa, Active), Tag(fx, Expired);
    SortNewestFirstSorted(a + x);
    FilterMembers(active, HasEmail(email));
    FilterMembers(expired, HasEmail(email));
    forall e ensures e in TokensOf(active, expired, email) <==> (e.record.email == email &&
      ((e.status == Active && e.record in active) || (e.status == Expired && e.record in expired))) {
      assert e in TokensOf(active, expired, email) <==> e in multiset(a + x);
      assert e in a + x <==> e in a || e in x;
      TagMembers(fa, Active, e);
      TagMembers(fx, Expired, e);
    }
  }

  /**
   * `get_token_history`: the newest entries of the sorted, tagged records of both
   * lists. For a non-negative limit there are exactly min(limit, total) of them;
   * they are a prefix of the whole sorted list, so no entry left out is newer
   * than one kept; each is a record of one of the two lists tagged with that list.
   */
  lemma HistoryCorrect(active: seq<TokenRecord>, expired: seq<TokenRecord>, limit: int)
    ensures var h := History(active, expired, limit);
      var sorted := SortNewestFirst(Tag(active, Active) + Tag(expired, Expired));
      var n := |active| + |expired|;
      && (limit >= 0 ==> |h| == if limit < n then limit else n)
      && |h| <= n
      && h == sorted[..|h|]
      && NewestFirst(h)
      && (forall i, j | 0 <= i < |h| <= j < |sorted| :: sorted[i].record.created >= sorted[j].record.created)
      && forall e <- h :: (e.status == Active && e.record in active) || (e.status == Expired && e.record in expired)
  {
    var all := Tag(active, Active) + Tag(expired, Expired);
    SortNewestFirstSorted(all);
    var sorted := SortNewestFirst(all);
    assert |sorted| == |multiset(sorted)| == |multiset(all)| == |all|;
    var h := History(active, expired, limit);
    NewestFirstPrefix(sorted, |h|);
    forall e <- h ensures (e.status == Active && e.record in active) || (e.status == Expired && e.record in expired) {
      assert e in multiset(all);
      assert e in Tag(active, Active) || e in Tag(expired, Expired);
      TagMembers(active, Active, e);
      TagMembers(expired, Expired, e);
    }
  }

  /** A prefix of a newest-first list is newest first, and holds only entries of the list. */
  lemma NewestFirstPrefix(sorted: seq<HistoryEntry>, n: nat)
    requires NewestFirst(sorted) && n <= |sorted|
    ensures NewestFirst(sorted[..n])
    ensures forall e <- sorted[..n] :: e in multiset(sorted)
  {
    var h := sorted[..n];
    forall i, j | 0 <= i < j < |h| ensures h[i].record.created >= h[j].record.created {
      assert h[i] == sorted[i] && h[j] == sorted[j];
    }
    forall e <- h ensures e in multiset(sorted) {
      var k :| 0 <= k < |h| && h[k] == e;
      assert sorted[k] == e;
    }
  }

  /** With a limit of at least the total, the history holds every record of both lists. */
  lemma HistoryWithLargeLimit(active: seq<TokenRecord>, expired: seq<TokenRecord>, limit: int)
    requires limit >= |active| + |expired|
    ensures multiset(History(active, expired, limit)) == multiset(Tag(active, Active) + Tag(expired, Expired))
  {
    SortNewestFirstSorted(Tag(active, Active) + Tag(expired, Expired));
  }

  // ---- clear_old_expired_tokens ----

  function Cutoff(now: int, days: int): int {
    now - days * SECONDS_PER_DAY
  }

  /**
   * The purge keeps exactly the records expired after the cutoff, in order;
   * the count is the number removed, never negative, and when it is zero the
   * list is already what the purge would write.
   */
  lemma PurgeCount(expired: seq<TokenRecord>, cutoff: int)
    ensures var kept := Filter(expired, RecentAfter(cutoff));
      && |expired| - |kept| >= 0
      && (forall r :: r in kept <==> r in expired && r.expiredAt.GetOr(0) > cutoff)
      && (|expired| - |kept| == 0 ==> kept == expired)
  {
    var kept := Filter(expired, RecentAfter(cutoff));
    if |kept| == |expired| {
      FilterSameLength(expired, RecentAfter(cutoff));
    }
  }

  lemma StampAllSnoc(records: seq<TokenRecord>, r: TokenRecord, now: int)
    ensures StampAll(records + [r], now) == StampAll(records, now) + [Stamp(r, now)]
  {
    assert (records + [r])[..|records|] == records;
  }

  lemma TagSnoc(records: seq<TokenRecord>, r: TokenRecord, status: Status)
    ensures Tag(records + [r], status) == Tag(records, status) + [HistoryEntry(r, status)]
  {
    assert (records + [r])[..|records|] == records;
  }

  /** One loop of `get_tokens_for_email`: copies of the records of `email`, tagged with `status`. */
  method TagMatching(records: seq<TokenRecord>, email: string, status: Status) returns (found: seq<HistoryEntry>)
    ensures found == Tag(Filter(records, HasEmail(email)), status)
  {
    found := [];
    var i := 0;
    while i < |records|
      invariant 0 <= i <= |records|
      invariant found == Tag(Filter(records[..i], HasEmail(email)), status)
    {
      var t := records[i];
      ghost var seen := records[..i];
      PrefixSnoc(records, i);
      FilterSnoc(seen, t, HasEmail(email));
      if t.email == email {
        TagSnoc(Filter(seen, HasEmail(email)), t, status);
        found := found + [HistoryEntry(t, status)];
      } else {
        assert Filter(seen, HasEmail(email)) + [] == Filter(seen, HasEmail(email));
      }
      i := i + 1;
    }
    assert records[..i] == records;
  }

  /** The loop of `cleanup_tokens`: the records still valid at `now`, and the others stamped with `now`. */
  method SplitExpired(tokens: seq<TokenRecord>, now: int) returns (stillActive: seq<TokenRecord>, newlyExpired: seq<TokenRecord>)
    ensures stillActive == Filter(tokens, LiveAt(now))
    ensures newlyExpired == StampAll(Filter(tokens, DeadAt(now)), now)
  {
    stillActive, newlyExpired := [], [];
    var i := 0;
    while i < |tokens|
      invariant 0 <= i <= |tokens|
      invariant stillActive == Filter(tokens[..i], LiveAt(now))
      invariant newlyExpired == StampAll(Filter(tokens[..i], DeadAt(now)), now)
    {
      var t := tokens[i];
      ghost var seen := tokens[..i];
      PrefixSnoc(tokens, i);
      FilterSnoc(seen, t, LiveAt(now));
      FilterSnoc(seen, t, DeadAt(now));
      if t.expiry > now {
        stillActive := stillActive + [t];
        assert Filter(seen, DeadAt(now)) + [] == Filter(seen, DeadAt(now));
      } else {
        StampAllSnoc(Filter(seen, DeadAt(now)), t, now);
        newlyExpired := newlyExpired + [Stamp(t, now)];
        assert Filter(seen, LiveAt(now)) + [] == Filter(seen, LiveAt(now));
      }
      i := i + 1;
    }
    assert tokens[..i] == tokens;
  }

  // ---- The store ----

  class TokenStore {
    /** The records of tokens.json. */
    var active: seq<TokenRecord>
    /** The records of expired_tokens.json. */
    var expired: seq<TokenRecord>
    /** `TOKEN_EXPIRY_HOURS`, read from the environment. */
    const expiryHours: int

    constructor(active: seq<TokenRecord>, expired: seq<TokenRecord>, expiryHours: int)
      ensures this.active == active && this.expired == expired && this.expiryHours == expiryHours
    {
      this.active := active;
      this.expired := expired;
      this.expiryHours := expiryHours;
    }

    /** `create_token(email)`, with the random picks and the clock reading as parameters. */
    method CreateToken(email: string, picks: seq<nat>, now: int) returns (token: string)
      requires |picks| == TOKEN_LENGTH && forall i | 0 <= i < |picks| :: picks[i] < |TOKEN_CHARS|
      modifies this
      ensures token == GenerateToken(picks) && IsTokenShape(token)
      ensures active == AfterCreate(old(active), TokenRecord(email, token, now + expiryHours * SECONDS_PER_HOUR, now, None))
      ensures expired == old(expired)
    {
      var tokens := Filter(active, OtherEmail(email));
      token := GenerateToken(picks);
      var expiry := now + expiryHours * SECONDS_PER_HOUR;
      tokens := tokens + [TokenRecord(email, token, expiry, now, None)];
      active := tokens;
    }

    /** `validate_token(token)` at time `now`. */
    method ValidateToken(token: string, now: int) returns (valid: bool)
      ensures valid == IsValid(active, token, now)
    {
      if token == [] { return false; }
      var t := Upper(token);
      var i := 0;
      while i < |active|
        invariant 0 <= i <= |active|
        invariant forall j | 0 <= j < i :: !(active[j].token == t && active[j].expiry > now)
      {
        if active[i].token == t && active[i].expiry > now {
          assert active[i] in active;
          return true;
        }
        i := i + 1;
      }
      assert forall r <- active :: !(r.token == t && r.expiry > now);
      return false;
    }

    /** `get_email_for_token(token)`. */
    method EmailForToken(token: string) returns (email: Option<string>)
      ensures email == LookupEmail(active, expired, token)
    {
      if token == [] { return None; }
      var t := Upper(token);
      var i := 0;
      while i < |active|
        invariant 0 <= i <= |active|
        invariant FirstMatch(active, t) == FirstMatch(active[i..], t)
      {
        assert active[i..][1..] == active[i + 1..];
        if active[i].token == t {
          return Some(active[i].email);
        }
        i := i + 1;
      }
      var j := 0;
      while j < |expired|
        invariant 0 <= j <= |expired|
        invariant FirstMatch(expired, t) == FirstMatch(expired[j..], t)
      {
        assert expired[j..][1..] == expired[j + 1..];
        if expired[j].token == t {
          return Some(expired[j].email);
        }
        j := j + 1;
      }
      return None;
    }

    /**
     * `cleanup_tokens()` at time `now`: the records no longer valid move, stamped
     * with `now`, to the end of the expired list; when there are none, neither
     * list is written.
     */
    method Cleanup(now: int)
      modifies this
      ensures active == Filter(old(active), LiveAt(now))
      ensures expired == old(expired) + StampAll(Filter(old(active), DeadAt(now)), now)
    {
      var stillActive, newlyExpired := SplitExpired(active, now);
      if |newlyExpired| > 0 {
        expired := expired + newlyExpired;
        active := stillActive;
      } else {
        CleanupWithNothingExpired(active, now);
        assert expired + [] == expired;
      }
    }

    /** `get_tokens_for_email(email)`; the store is only read. */
    method TokensForEmail(email: string) returns (result: seq<HistoryEntry>)
      ensures result == TokensOf(active, expired, email)
    {
      if email == [] { return []; }
      var fromActive := TagMatching(active, email, Active);
      var fromExpired := TagMatching(expired, email, Expired);
      result := SortNewestFirst(fromActive + fromExpired);
    }

    /** `get_token_history(limit)`; the store is only read. */
    method TokenHistory(limit: int) returns (result: seq<HistoryEntry>)
      ensures result == History(active, expired, limit)
    {
      var found: seq<HistoryEntry> := [];
      var i := 0;
      while i < |active|
        invariant 0 <= i <= |active|
        invariant found == Tag(active[..i], Active)
      {
        PrefixSnoc(active, i);
        found := found + [HistoryEntry(active[i], Active)];
        i := i + 1;
      }
      assert active[..i] == active;
      var fromActive := found;
      found := [];
      var j := 0;
      while j < |expired|
        invariant 0 <= j <= |expired|
        invariant found == Tag(expired[..j], Expired)
      {
        PrefixSnoc(expired, j);
        found := found + [HistoryEntry(expired[j], Expired)];
        j := j + 1;
      }
      assert expired[..j] == expired;
      result := PrefixUpTo(SortNewestFirst(fromActive + found), limit);
    }

    /**
     * `clear_old_expired_tokens(days)` at time `now`: returns how many expired
     * records are older than the cutoff, and writes the list only when that is
     * more than zero.
     */
    method ClearOldExpired(days: int, now: int) returns (cleared: int)
      modifies this
      ensures cleared == |old(expired)| - |Filter(old(expired), RecentAfter(Cutoff(now, days)))|
      ensures cleared >= 0
      ensures expired == Filter(old(expired), RecentAfter(Cutoff(now, days)))
      ensures active == old(active)
    {
      var cutoff := now - days * 24 * 3600;
      var kept := Filter(expired, RecentAfter(cutoff));
      cleared := |expired| - |kept|;
      PurgeCount(expired, cutoff);
      if cleared > 0 {
        expired := kept;
      }
    }
  }

  /** A freshly created token validates, typed in either case, from its creation until just before its expiry. */
  lemma CreatedTokenValidates(active: seq<TokenRecord>, email: string, picks: seq<nat>, now: int, hours: int, later: int)
    requires |picks| == TOKEN_LENGTH && forall i | 0 <= i < |picks| :: picks[i] < |TOKEN_CHARS|
    requires now <= later < now + hours * SECONDS_PER_HOUR
    ensures var token := GenerateToken(picks);
      var after := AfterCreate(active, TokenRecord(email, token, now + hours * SECONDS_PER_HOUR, now, None));
      IsValid(after, token, later) && IsValid(after, Lower(token), later)
  {
    var token := GenerateToken(picks);
    TokenShapeIsUpper(token);
    var record := TokenRecord(email, token, now + hours * SECONDS_PER_HOUR, now, None);
    var after := AfterCreate(active, record);
    assert record in after;
  }

}
