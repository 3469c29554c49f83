/** The selection and bookkeeping logic of the #notplaying bot (bot.py).

    The Mastodon client, the regular expression `np_pattern`, `html.unescape`
    and `random.choice` are foreign: they enter the model as parameters
    (a page oracle, an `Extractor`, a sequence of draw indices). */
module Bot {
  import opened Wrappers

  /** A status as the bot keeps it; only `id` and `content` are ever read. */
  datatype Toot = Toot(id: int, content: string)

  /** One capture of `np_pattern`: the tuple `(artist, title)`. */
  datatype Match = Match(artist: string, title: string)

  /** The Python exceptions raised on the paths modelled here. */
  datatype PyError = IndexError | UnboundLocalError

  /** The two foreign text functions applied to a toot's content:
      `html.unescape` and `np_pattern.findall`. */
  datatype Extractor = Extractor(unescape: string -> string, findall: string -> seq<Match>)

  /** `account_statuses` for one account with a fixed limit, as a function of its cursor. */
  type PageOracle = Option<int> -> seq<Toot>

  /** Backfill stops after this many client calls ... */
  const Rounds: nat := 10
  /** ... or once this many toots are held. */
  const Target: nat := 1000
  /** The `limit` passed on every client call. */
  const PageLimit: nat := 100

  // ---------------------------------------------------------------------
  // Text builders
  // ---------------------------------------------------------------------

  /** Everything the post template puts before the credit. */
  const Header: string := "\n\U{1F3B6} #notplaying #np #fediplay #bot \U{1F3B6}\n\n"

  /** The post: the credit framed by the fixed hashtag line and a final newline. */
  function FormattedToot(title: string): (r: string)
    ensures |r| == |Header| + |title| + 1
    ensures r[..|Header|] == Header
    ensures r[|Header|..|r| - 1] == title
    ensures r[|r| - 1] == '\n'
  {
    Header + title + "\n"
  }

  /** Recovers the credit from a post, or `None` when the text is not a post. */
  function ParseToot(post: string): (r: Option<string>)
    ensures r.Some? <==> |post| > |Header| && post[..|Header|] == Header && post[|post| - 1] == '\n'
    ensures r.Some? ==> FormattedToot(r.value) == post
  {
    if |post| > |Header| && post[..|Header|] == Header && post[|post| - 1] == '\n' then
      var title := post[|Header|..|post| - 1];
      assert post == post[..|Header|] + title + [post[|post| - 1]];
      Some(title)
    else
      None
  }

  /** The template is injective: parsing a post gives back its credit. */
  lemma ParseFormatted(title: string)
    ensures ParseToot(FormattedToot(title)) == Some(title)
  {
  }

  /** `'{} vs {} - {} {}'.format(*artists, *titles)`: the four placeholders take
      the first four of the concatenated arguments; fewer than four raise IndexError. */
  function Remix(artists: seq<string>, titles: seq<string>): (r: Result<string, PyError>)
    ensures r.Failure? <==> |artists| + |titles| < 4
    ensures r.Failure? ==> r.error == IndexError
    ensures |artists| == 2 && |titles| == 2 ==>
      r == Success(artists[0] + " vs " + artists[1] + " - " + titles[0] + " " + titles[1])
  {
    var args := artists + titles;
    if |args| < 4 then Failure(IndexError)
    else Success(args[0] + " vs " + args[1] + " - " + args[2] + " " + args[3])
  }

  // ---------------------------------------------------------------------
  // Pagination cursor
  // ---------------------------------------------------------------------

  /** `max_id`: despite its name, the SMALLEST id held, or `None` for no toots. */
  function MaxId(toots: seq<Toot>): (r: Option<int>)
    ensures r.None? <==> toots == []
    ensures r.Some? ==> exists i :: 0 <= i < |toots| && toots[i].id == r.value
    ensures r.Some? ==> forall i :: 0 <= i < |toots| ==> r.value <= toots[i].id
  {
    if toots == [] then None
    else
      match MaxId(toots[1..])
      case None => Some(toots[0].id)
      case Some(m) =>
        if toots[0].id <= m then Some(toots[0].id)
        else
          var i :| 0 <= i < |toots[1..]| && toots[1..][i].id == m;
          assert toots[i + 1].id == m;
          Some(m)
  }

  /** Adding toots at the end can only lower (or keep) the cursor. */
  lemma MaxIdOfExtension(s: seq<Toot>, t: seq<Toot>)
    requires s != [] && s <= t
    ensures MaxId(t).Some? && MaxId(t).value <= MaxId(s).value
  {
    var i :| 0 <= i < |s| && s[i].id == MaxId(s).value;
    assert t[i] == s[i];
  }

  // ---------------------------------------------------------------------
  // Supergroup selection
  // ---------------------------------------------------------------------

  /** `get_random_toot` once `random.choice` has picked `t`: its HTML-decoded content. */
  function RandomToot(ex: Extractor, t: Toot): string
  {
    ex.unescape(t.content)
  }

  /** The matches `np_pattern.findall` finds in a drawn toot. */
  function Matches(ex: Extractor, t: Toot): seq<Match>
  {
    ex.findall(RandomToot(ex, t))
  }

  /** Python `==` between a `(artist, title)` tuple and a status dictionary: `tuple.__eq__`
      and `dict.__eq__` both return `NotImplemented` for the other type, so `==` falls back
      to identity, and a tuple fresh from `findall` is never the same object as a status. */
  predicate TupleEqualsStatus(m: Match, t: Toot)
  {
    false
  }

  /** `m in now_playing_toots`, decided element by element with Python `==`. */
  predicate InToots(m: Match, toots: seq<Toot>)
  {
    exists i :: 0 <= i < |toots| && TupleEqualsStatus(m, toots[i])
  }

  /** The guard of bot.py:71 lets every match through. */
  lemma GuardNeverRejects(m: Match, toots: seq<Toot>)
    ensures !InToots(m, toots)
  {
  }

  /** `[x[0] for x in supergroup]` */
  function Artists(group: seq<Match>): seq<string>
  {
    seq(|group|, i requires 0 <= i < |group| => group[i].artist)
  }

  /** One pass of the selection loop body once `m = findall(...)` is known. */
  function Absorb(group: seq<Match>, m: seq<Match>, toots: seq<Toot>): (g: seq<Match>)
    ensures m == [] ==> g == group
    ensures m != [] && m[0].artist in Artists(group) ==> g == group
    ensures m != [] && m[0].artist !in Artists(group) ==> g == group + [m[0]]
  {
    if m != [] && !InToots(m[0], toots) && m[0].artist !in Artists(group) then group + [m[0]]
    else group
  }

  /** No two entries share an artist. */
  predicate DistinctArtists(group: seq<Match>)
  {
    forall i, j :: 0 <= i < j < |group| ==> group[i].artist != group[j].artist
  }

  /** `m` is the first match of the decoded content of `t`. */
  predicate FirstMatchOf(ex: Extractor, t: Toot, m: Match)
  {
    Matches(ex, t) != [] && Matches(ex, t)[0] == m
  }

  /** Every entry is the first match of some toot of `toots`. */
  predicate FromToots(ex: Extractor, toots: seq<Toot>, group: seq<Match>)
  {
    forall k :: 0 <= k < |group| ==> exists i :: 0 <= i < |toots| && FirstMatchOf(ex, toots[i], group[k])
  }

  /** What the loop keeps true of the supergroup under construction. */
  predicate PartialSupergroup(ex: Extractor, toots: seq<Toot>, group: seq<Match>)
  {
    |group| <= 2 && DistinctArtists(group) && FromToots(ex, toots, group)
  }

  /** What `get_supergroup` returns: two first matches with different artists. */
  predicate IsSupergroup(ex: Extractor, toots: seq<Toot>, group: seq<Match>)
  {
    |group| == 2 && PartialSupergroup(ex, toots, group)
  }

  /** A step never breaks the shape of a partial supergroup, and grows it by at most one. */
  lemma AbsorbKeepsPartial(ex: Extractor, toots: seq<Toot>, group: seq<Match>, k: nat)
    requires k < |toots| && PartialSupergroup(ex, toots, group) && |group| < 2
    ensures PartialSupergroup(ex, toots, Absorb(group, Matches(ex, toots[k]), toots))
  {
    var m := Matches(ex, toots[k]);
    var g := Absorb(group, m, toots);
    if m != [] && m[0].artist !in Artists(group) {
      assert forall i :: 0 <= i < |group| ==> Artists(group)[i] == group[i].artist;
      forall j | 0 <= j < |g| ensures exists i :: 0 <= i < |toots| && FirstMatchOf(ex, toots[i], g[j]) {
        if j == |group| {
          assert FirstMatchOf(ex, toots[k], g[j]);
        } else {
          assert g[j] == group[j];
        }
      }
    }
  }

  /** The outcome of the selection loop.
      `NoToots`: `random.choice` raised IndexError on an empty list.
      `OutOfDraws`: the finite draw sequence ended first (the source would keep drawing). */
  datatype Selection = Chosen(group: seq<Match>) | NoToots | OutOfDraws(group: seq<Match>)

  /** Every draw names a toot. */
  predicate ValidDraws(toots: seq<Toot>, draws: seq<nat>)
  {
    forall k :: 0 <= k < |draws| ==> draws[k] < |toots|
  }

  /** The selection loop, run from `group` on the draws `draws`. */
  function Select(ex: Extractor, toots: seq<Toot>, draws: seq<nat>, group: seq<Match>): Selection
    requires ValidDraws(toots, draws)
    decreases |draws|
  {
    if |group| == 2 then Chosen(group)
    else if toots == [] then NoToots
    else if draws == [] then OutOfDraws(group)
    else Select(ex, toots, draws[1..], Absorb(group, Matches(ex, toots[draws[0]]), toots))
  }

  /** A chosen group extends the starting group and is a supergroup; running out of
      draws leaves a partial one of fewer than two entries. */
  lemma {:induction false} SelectYieldsSupergroup(ex: Extractor, toots: seq<Toot>, draws: seq<nat>, group: seq<Match>)
    requires ValidDraws(toots, draws) && PartialSupergroup(ex, toots, group)
    ensures Select(ex, toots, draws, group).NoToots? <==> |group| < 2 && toots == []
    ensures Select(ex, toots, draws, group).Chosen? ==>
      group <= Select(ex, toots, draws, group).group && IsSupergroup(ex, toots, Select(ex, toots, draws, group).group)
    ensures Select(ex, toots, draws, group).OutOfDraws? ==>
      group <= Select(ex, toots, draws, group).group && |Select(ex, toots, draws, group).group| < 2
      && PartialSupergroup(ex, toots, Select(ex, toots, draws, group).group)
    decreases |draws|
  {
    if |group| < 2 && toots != [] && draws != [] {
      var g := Absorb(group, Matches(ex, toots[draws[0]]), toots);
      AbsorbKeepsPartial(ex, toots, group, draws[0]);
      SelectYieldsSupergroup(ex, toots, draws[1..], g);
    }
  }

  /** With one entry chosen, any later draw whose first match has a new artist completes the group. */
  lemma {:induction false} SelectCompletesFromOne(ex: Extractor, toots: seq<Toot>, draws: seq<nat>, group: seq<Match>, k: nat)
    requires ValidDraws(toots, draws) && 1 <= |group| <= 2
    requires k < |draws| && Matches(ex, toots[draws[k]]) != []
    requires Matches(ex, toots[draws[k]])[0].artist !in Artists(group)
    ensures Select(ex, toots, draws, group).Chosen?
    decreases k
  {
    if |group| < 2 {
      var g := Absorb(group, Matches(ex, toots[draws[0]]), toots);
      if k > 0 && |g| < 2 {
        SelectCompletesFromOne(ex, toots, draws[1..], g, k - 1);
      }
    }
  }

  /** Whatever the order of the draws, two draws whose first matches have different
      artists are enough for the selection to finish with a supergroup. */
  lemma {:induction false} SelectCompletes(ex: Extractor, toots: seq<Toot>, draws: seq<nat>, i: nat, j: nat)
    requires ValidDraws(toots, draws) && i < j < |draws|
    requires Matches(ex, toots[draws[i]]) != [] && Matches(ex, toots[draws[j]]) != []
    requires Matches(ex, toots[draws[i]])[0].artist != Matches(ex, toots[draws[j]])[0].artist
    ensures Select(ex, toots, draws, []).Chosen?
    decreases i
  {
    var g := Absorb([], Matches(ex, toots[draws[0]]), toots);
    if g == [] {
      SelectCompletes(ex, toots, draws[1..], i - 1, j - 1);
    } else {
      var a := g[0].artist;
      if Matches(ex, toots[draws[j]])[0].artist != a {
        SelectCompletesFromOne(ex, toots, draws[1..], g, j - 1);
      } else {
        SelectCompletesFromOne(ex, toots, draws[1..], g, i - 1);
      }
    }
  }

  /** Two draws, in this order, whose first matches have different artists. */
  predicate DrawsTwoArtists(ex: Extractor, toots: seq<Toot>, draws: seq<nat>)
    requires ValidDraws(toots, draws)
  {
    exists i, j :: 0 <= i < j < |draws| && Matches(ex, toots[draws[i]]) != [] && Matches(ex, toots[draws[j]]) != []
      && Matches(ex, toots[draws[i]])[0].artist != Matches(ex, toots[draws[j]])[0].artist
  }

  /** From one entry, the selection completes only through a draw whose first match has
      another artist. */
  lemma {:induction false} ChosenFromOneNeedsNewArtist(ex: Extractor, toots: seq<Toot>, draws: seq<nat>, x: Match)
    requires ValidDraws(toots, draws)
    requires Select(ex, toots, draws, [x]).Chosen?
    ensures exists k :: 0 <= k < |draws| && Matches(ex, toots[draws[k]]) != [] && Matches(ex, toots[draws[k]])[0].artist != x.artist
    decreases |draws|
  {
    assert Artists([x]) == [x.artist];
    var g := Absorb([x], Matches(ex, toots[draws[0]]), toots);
    if |g| == 2 {
      assert Matches(ex, toots[draws[0]]) != [] && Matches(ex, toots[draws[0]])[0].artist != x.artist;
    } else {
      ChosenFromOneNeedsNewArtist(ex, toots, draws[1..], x);
      var k :| 0 <= k < |draws[1..]| && Matches(ex, toots[draws[1..][k]]) != [] && Matches(ex, toots[draws[1..][k]])[0].artist != x.artist;
      assert draws[1..][k] == draws[k + 1];
    }
  }

  /** Starting from no entries, the selection completes only after two draws whose first
      matches have different artists. */
  lemma {:induction false} ChosenNeedsTwoArtists(ex: Extractor, toots: seq<Toot>, draws: seq<nat>)
    requires ValidDraws(toots, draws)
    requires Select(ex, toots, draws, []).Chosen?
    ensures DrawsTwoArtists(ex, toots, draws)
    decreases |draws|
  {
    var m := Matches(ex, toots[draws[0]]);
    var g := Absorb([], m, toots);
    if g == [] {
      ChosenNeedsTwoArtists(ex, toots, draws[1..]);
      var i, j :| 0 <= i < j < |draws[1..]| && Matches(ex, toots[draws[1..][i]]) != [] && Matches(ex, toots[draws[1..][j]]) != []
        && Matches(ex, toots[draws[1..][i]])[0].artist != Matches(ex, toots[draws[1..][j]])[0].artist;
      assert draws[1..][i] == draws[i + 1] && draws[1..][j] == draws[j + 1];
    } else {
      assert g == [m[0]];
      ChosenFromOneNeedsNewArtist(ex, toots, draws[1..], m[0]);
      var k :| 0 <= k < |draws[1..]| && Matches(ex, toots[draws[1..][k]]) != [] && Matches(ex, toots[draws[1..][k]])[0].artist != m[0].artist;
      assert draws[1..][k] == draws[k + 1];
    }
  }

  /** The selection completes exactly when the draws hold two first matches with different
      artists; otherwise it runs out of draws (or finds no toots at all). */
  lemma SelectChosenIff(ex: Extractor, toots: seq<Toot>, draws: seq<nat>)
    requires ValidDraws(toots, draws)
    ensures Select(ex, toots, draws, []).Chosen? <==> DrawsTwoArtists(ex, toots, draws)
  {
    if DrawsTwoArtists(ex, toots, draws) {
      var i, j :| 0 <= i < j < |draws| && Matches(ex, toots[draws[i]]) != [] && Matches(ex, toots[draws[j]]) != []
        && Matches(ex, toots[draws[i]])[0].artist != Matches(ex, toots[draws[j]])[0].artist;
      SelectCompletes(ex, toots, draws, i, j);
    }
    if Select(ex, toots, draws, []).Chosen? {
      ChosenNeedsTwoArtists(ex, toots, draws);
    }
  }

  /** `get_supergroup`: draw toots until two first matches with different artists are held. */
  method GetSupergroup(ex: Extractor, toots: seq<Toot>, draws: seq<nat>) returns (r: Selection)
    requires ValidDraws(toots, draws)
    ensures r == Select(ex, toots, draws, [])
    ensures r.NoToots? <==> toots == []
    ensures r.Chosen? ==> IsSupergroup(ex, toots, r.group)
    ensures r.OutOfDraws? ==> |r.group| < 2 && PartialSupergroup(ex, toots, r.group)
  {
    var supergroup: seq<Match> := [];
    var n := 0;
    while |supergroup| != 2
      invariant n <= |draws|
      invariant PartialSupergroup(ex, toots, supergroup)
      invariant Select(ex, toots, draws[n..], supergroup) == Select(ex, toots, draws, [])
      decreases |draws| - n
    {
      if toots == [] {
        return NoToots;
      }
      if n == |draws| {
        return OutOfDraws(supergroup);
      }
      var m := ex.findall(RandomToot(ex, toots[draws[n]]));
      ghost var before := supergroup;
      if m != [] && !InToots(m[0], toots) {
        if m[0].artist !in Artists(supergroup) {
          supergroup := supergroup + [m[0]];
        }
      }
      assert supergroup == Absorb(before, Matches(ex, toots[draws[n]]), toots);
      AbsorbKeepsPartial(ex, toots, before, draws[n]);
      assert draws[n..][1..] == draws[n + 1..];
      n := n + 1;
    }
    return Chosen(supergroup);
  }

  // ---------------------------------------------------------------------
  // Backfill and refresh
  // ---------------------------------------------------------------------

  /** The list held after asking the oracle for one page per cursor, in order. */
  function Accumulate(initial: seq<Toot>, cursors: seq<Option<int>>, page: PageOracle): seq<Toot>
  {
    if cursors == [] then initial
    else Accumulate(initial, cursors[..|cursors| - 1], page) + page(cursors[|cursors| - 1])
  }

  /** Each call asked for the toots older than the oldest one held at that moment. */
  predicate CursorsFollowList(initial: seq<Toot>, cursors: seq<Option<int>>, page: PageOracle)
  {
    forall k :: 0 <= k < |cursors| ==> cursors[k] == MaxId(Accumulate(initial, cursors[..k], page))
  }

  /** Backfill never drops or reorders what was already held. */
  lemma {:induction false} AccumulateExtends(initial: seq<Toot>, cursors: seq<Option<int>>, page: PageOracle)
    ensures initial <= Accumulate(initial, cursors, page)
    decreases |cursors|
  {
    if cursors != [] {
      AccumulateExtends(initial, cursors[..|cursors| - 1], page);
    }
  }

  /** The list after fewer calls is a prefix of the list after more. */
  lemma {:induction false} AccumulatePrefix(initial: seq<Toot>, cursors: seq<Option<int>>, page: PageOracle, k: nat)
    requires k <= |cursors|
    ensures Accumulate(initial, cursors[..k], page) <= Accumulate(initial, cursors, page)
    decreases |cursors|
  {
    if k < |cursors| {
      var shorter := cursors[..|cursors| - 1];
      assert shorter[..k] == cursors[..k];
      AccumulatePrefix(initial, shorter, page, k);
    } else {
      assert cursors[..k] == cursors;
    }
  }

  /** With pages of at most `PageLimit` toots, each call adds at most `PageLimit` toots. */
  lemma {:induction false} AccumulateBounded(initial: seq<Toot>, cursors: seq<Option<int>>, page: PageOracle)
    requires forall c :: |page(c)| <= PageLimit
    ensures |Accumulate(initial, cursors, page)| <= |initial| + PageLimit * |cursors|
    decreases |cursors|
  {
    if cursors != [] {
      AccumulateBounded(initial, cursors[..|cursors| - 1], page);
    }
  }

  /** Once something is held, the cursors of later calls never move to newer toots. */
  lemma CursorsNonIncreasing(initial: seq<Toot>, cursors: seq<Option<int>>, page: PageOracle, k: nat, l: nat)
    requires CursorsFollowList(initial, cursors, page)
    requires k <= l < |cursors| && cursors[k].Some?
    ensures cursors[l].Some? && cursors[l].value <= cursors[k].value
  {
    AccumulatePrefix(initial, cursors[..l], page, k);
    assert cursors[..l][..k] == cursors[..k];
    MaxIdOfExtension(Accumulate(initial, cursors[..k], page), Accumulate(initial, cursors[..l], page));
  }

  /** One round of backfill keeps the cursor rule and the "called below the target" record. */
  lemma BackfillStep(initial: seq<Toot>, cursors: seq<Option<int>>, page: PageOracle)
    requires CursorsFollowList(initial, cursors, page)
    requires forall k :: 0 <= k < |cursors| ==> |Accumulate(initial, cursors[..k], page)| < Target
    requires |Accumulate(initial, cursors, page)| < Target
    ensures var next := cursors + [MaxId(Accumulate(initial, cursors, page))];
      && Accumulate(initial, next, page) == Accumulate(initial, cursors, page) + page(next[|cursors|])
      && CursorsFollowList(initial, next, page)
      && forall k :: 0 <= k < |next| ==> |Accumulate(initial, next[..k], page)| < Target
  {
    var next := cursors + [MaxId(Accumulate(initial, cursors, page))];
    assert next[..|cursors|] == cursors;
    assert forall k :: 0 <= k <= |cursors| ==> next[..k] == cursors[..k];
  }

  /** `get_historical_toots`, starting from `initial` (see README): page backwards from the
      oldest toot held until 10 calls were made or 1000 toots are held. The ghost `cursors`
      records the `max_id` of each call, in order. */
  method GetHistoricalToots(initial: seq<Toot>, page: PageOracle) returns (toots: seq<Toot>, ghost cursors: seq<Option<int>>)
    ensures toots == Accumulate(initial, cursors, page)
    ensures CursorsFollowList(initial, cursors, page)
    ensures |cursors| <= Rounds
    ensures |cursors| == Rounds || |toots| >= Target
    ensures forall k :: 0 <= k < |cursors| ==> |Accumulate(initial, cursors[..k], page)| < Target
    ensures initial <= toots
    ensures BackfillLoop(Some(initial), 0, page) == Success(toots)
  {
    toots := initial;
    cursors := [];
    var count := 0;
    while count < Rounds && |toots| < Target
      invariant count == |cursors| <= Rounds
      invariant toots == Accumulate(initial, cursors, page)
      invariant CursorsFollowList(initial, cursors, page)
      invariant forall k :: 0 <= k < |cursors| ==> |Accumulate(initial, cursors[..k], page)| < Target
      invariant BackfillLoop(Some(toots), count, page) == BackfillLoop(Some(initial), 0, page)
    {
      var cursor := MaxId(toots);
      BackfillStep(initial, cursors, page);
      toots := toots + page(cursor);
      cursors := cursors + [cursor];
      count := count + 1;
    }
    AccumulateExtends(initial, cursors, page);
  }

  /** The backfill loop of bot.py:91-96 with the binding state of the local `toots`
      made explicit (`None`: not yet bound). Reading an unbound local raises. */
  function BackfillLoop(toots: Option<seq<Toot>>, count: nat, page: PageOracle): Result<seq<Toot>, PyError>
    decreases Rounds - count
  {
    if count >= Rounds then
      if toots.None? then Failure(UnboundLocalError) else Success(toots.value)
    else if toots.None? then Failure(UnboundLocalError)
    else if |toots.value| >= Target then Success(toots.value)
    else BackfillLoop(Some(toots.value + page(MaxId(toots.value))), count + 1, page)
  }

  /** bot.py:90-96 as written: `toots` is local to the function (`+=` assigns it), so the
      loop enters with it unbound. */
  function GetHistoricalTootsAsWritten(page: PageOracle): Result<seq<Toot>, PyError>
  {
    BackfillLoop(None, 0, page)
  }

  /** As written, backfill raises on every client. */
  lemma HistoricalAsWrittenRaises(page: PageOracle)
    ensures GetHistoricalTootsAsWritten(page) == Failure(UnboundLocalError)
  {
  }

  /** Once `toots` is bound on entry, the same loop never raises and only appends. */
  lemma {:induction false} BackfillLoopBound(initial: seq<Toot>, count: nat, page: PageOracle)
    ensures BackfillLoop(Some(initial), count, page).Success?
    ensures initial <= BackfillLoop(Some(initial), count, page).value
    decreases Rounds - count
  {
    if count < Rounds && |initial| < Target {
      var next := initial + page(MaxId(initial));
      BackfillLoopBound(next, count + 1, page);
    }
  }

  /** bot.py:109: append the page of toots "since" `max_id(toots)`. */
  function Refresh(toots: seq<Toot>, since: PageOracle): (r: seq<Toot>)
    ensures toots <= r
    ensures r[|toots|..] == since(MaxId(toots))
  {
    toots + since(MaxId(toots))
  }

  /** The refresh is anchored at the OLDEST toot: when the server answers with every held
      toot newer than the cursor, a list holding two different ids ends up with a duplicate. */
  lemma RefreshRefetchesHeld(toots: seq<Toot>, since: PageOracle, i: nat)
    requires i < |toots| && toots[i].id != MaxId(toots).value
    requires forall j :: 0 <= j < |toots| && toots[j].id > MaxId(toots).value ==> toots[j] in since(MaxId(toots))
    ensures exists p, q :: 0 <= p < q < |Refresh(toots, since)| && Refresh(toots, since)[p] == Refresh(toots, since)[q]
  {
    var newer := since(MaxId(toots));
    assert toots[i] in newer;
    var p :| 0 <= p < |newer| && newer[p] == toots[i];
    var r := Refresh(toots, since);
    assert r[i] == toots[i] && r[|toots| + p] == newer[p];
  }
}
