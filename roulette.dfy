/**
 * The decision rules of the bot's message handler: which messages are
 * ignored, when a request naming other members is refused, who the targets
 * are, which targets a safe role spares, and how long the others are timed
 * out for and until when.
 *
 * Discord is reduced to plain values: members and roles are ids, a message
 * is its author, mentions, guild, channel and text. The generated length and
 * the clock reading for each target are inputs (`Roll`), with the clock in
 * whole minutes.
 */
module Roulette {
  import opened Text
  import opened TimeDisplay

  /** A guild member: their id, whether the account is a bot, and the ids of their roles. */
  datatype Member = Member(id: nat, isBot: bool, roles: seq<nat>)

  datatype Message = Message(author: Member, mentions: seq<Member>, guildId: nat, channelId: nat, content: string)

  /** The per-guild settings the handler reads; a missing list reads as empty. */
  datatype GuildSettings = GuildSettings(
    channels: seq<nat>,
    triggers: seq<string>,
    adminRoles: seq<nat>,
    safeRoles: seq<nat>)

  /** For one target: the generated length in minutes and the current time in minutes. */
  datatype Roll = Roll(minutes: nat, now: int)

  /**
   * What happens to one target. The reply shows the generated length
   * (`shown`) and is worded for the author (`toSelf`) or for someone else.
   * `Overflowed` is a target whose length is too large for a `timedelta`:
   * building it raises `OverflowError`, which ends the handler there.
   */
  datatype Action =
    | Spared(target: Member, minutes: nat, shown: string, toSelf: bool)
    | TimedOut(target: Member, minutes: nat, applied: nat, until: int, shown: string, toSelf: bool)
    | Overflowed(target: Member, minutes: nat, shown: string, toSelf: bool)

  datatype Outcome =
    | Ignored              // the handler returns without acting
    | Exit                 // no guild is configured: the process exits
    | Refused              // mentions from an author without an admin role
    | Acted(actions: seq<Action>)

  /** Discord's longest timeout, 28 days, in minutes. */
  const MaxTimeoutMinutes: nat := 28 * 24 * 60

  /** The first length in minutes a `timedelta` cannot hold: it allows at most 999999999 days. */
  const TimedeltaLimitMinutes: nat := 1000000000 * 24 * 60

  /** At most this many targets are handled per message. */
  const MaxTargets: nat := 5

  // ---------------------------------------------------------------------
  // Guards
  // ---------------------------------------------------------------------

  /** Some role of `roles` is in `listed`: the negation of `set(roles).isdisjoint(listed)`. */
  predicate SharesRole(roles: seq<nat>, listed: seq<nat>)
    ensures SharesRole(roles, listed) <==> exists role :: role in roles && role in listed
  {
    exists i | 0 <= i < |roles| :: roles[i] in listed
  }

  /** `any(trigger in content for trigger in triggers)`. */
  predicate AnyTrigger(content: string, triggers: seq<string>)
    ensures triggers == [] ==> !AnyTrigger(content, triggers)
    ensures "" in triggers ==> AnyTrigger(content, triggers)
  {
    exists i | 0 <= i < |triggers| :: Contains(content, triggers[i])
  }

  // ---------------------------------------------------------------------
  // Target selection
  // ---------------------------------------------------------------------

  predicate HasId(ms: seq<Member>, id: nat) {
    exists k | 0 <= k < |ms| :: ms[k].id == id
  }

  predicate DistinctIds(ms: seq<Member>) {
    forall i, j :: 0 <= i < j < |ms| ==> ms[i].id != ms[j].id
  }

  /** `list(dict.fromkeys(ms))`: members compare by id, and the first of each id is kept. */
  function Dedupe(ms: seq<Member>): (r: seq<Member>)
    ensures |r| <= |ms|
  {
    if ms == [] then []
    else
      var kept := Dedupe(ms[..|ms| - 1]);
      if HasId(kept, ms[|ms| - 1].id) then kept else kept + [ms[|ms| - 1]]
  }
  /** The first requested member always survives de-duplication, and leads. */
  lemma {:induction false} DedupeKeepsHead(ms: seq<Member>)
    requires ms != []
    ensures Dedupe(ms) != [] && Dedupe(ms)[0] == ms[0]
  {
    var n := |ms| - 1;
    if n > 0 {
      DedupeKeepsHead(ms[..n]);
    }
  }


  /** Position `k` holds the first member with its id. */
  predicate IsFirst(ms: seq<Member>, k: nat)
    requires k < |ms|
  {
    forall j :: 0 <= j < k ==> ms[j].id != ms[k].id
  }

  /** The positions that hold the first member of each id, in increasing order. */
  function FirstOccurrences(ms: seq<Member>): (r: seq<nat>)
    ensures forall i :: 0 <= i < |r| ==> r[i] < |ms| && IsFirst(ms, r[i])
    ensures forall i, j :: 0 <= i < j < |r| ==> r[i] < r[j]
  {
    if ms == [] then []
    else
      var n := |ms| - 1;
      var prefix := ms[..n];
      var earlier := FirstOccurrences(prefix);
      assert forall i :: 0 <= i < |earlier| ==> IsFirst(ms, earlier[i]) by {
        forall i | 0 <= i < |earlier|
          ensures IsFirst(ms, earlier[i])
        {
          assert IsFirst(prefix, earlier[i]);
        }
      }
      if IsFirst(ms, n) then earlier + [n] else earlier
  }

  /** The members at the given positions. */
  function Select(ms: seq<Member>, positions: seq<nat>): (r: seq<Member>)
    requires forall i :: 0 <= i < |positions| ==> positions[i] < |ms|
    ensures |r| == |positions|
    ensures forall i :: 0 <= i < |r| ==> r[i] == ms[positions[i]]
  {
    if positions == [] then [] else Select(ms, positions[..|positions| - 1]) + [ms[positions[|positions| - 1]]]
  }

  lemma SelectPrefix(ms: seq<Member>, n: nat, positions: seq<nat>)
    requires n <= |ms|
    requires forall i :: 0 <= i < |positions| ==> positions[i] < n
    ensures Select(ms, positions) == Select(ms[..n], positions)
  {
  }

  /** A member's id is in a list of first occurrences exactly when it is in the list. */
  lemma {:induction false} FirstOccurrencesCover(ms: seq<Member>, id: nat)
    ensures HasId(Select(ms, FirstOccurrences(ms)), id) <==> HasId(ms, id)
  {
    var fo := FirstOccurrences(ms);
    var s := Select(ms, fo);
    if HasId(ms, id) {
      var first := FirstWithId(ms, id);
      assert IsFirst(ms, first);
      FirstListed(ms, first);
      var i :| 0 <= i < |fo| && fo[i] == first;
      assert s[i].id == id;
    }
  }

  /** Every first-occurrence position is listed. */
  lemma {:induction false} FirstListed(ms: seq<Member>, k: nat)
    requires k < |ms| && IsFirst(ms, k)
    ensures exists i :: 0 <= i < |FirstOccurrences(ms)| && FirstOccurrences(ms)[i] == k
  {
    var n := |ms| - 1;
    var prefix := ms[..n];
    if k == n {
      assert FirstOccurrences(ms)[|FirstOccurrences(prefix)|] == k;
    } else {
      assert IsFirst(prefix, k);
      FirstListed(prefix, k);
      var i :| 0 <= i < |FirstOccurrences(prefix)| && FirstOccurrences(prefix)[i] == k;
      assert FirstOccurrences(ms)[i] == k;
    }
  }

  /**
   * `dict.fromkeys` keeps, in order, exactly the first member of each id:
   * the same as selecting the first-occurrence positions.
   */
  lemma {:induction false} DedupeIsFirstOccurrences(ms: seq<Member>)
    ensures Dedupe(ms) == Select(ms, FirstOccurrences(ms))
  {
    if ms != [] {
      var n := |ms| - 1;
      var prefix := ms[..n];
      DedupeIsFirstOccurrences(prefix);
      SelectPrefix(ms, n, FirstOccurrences(prefix));
      FirstOccurrencesCover(prefix, ms[n].id);
      assert HasId(prefix, ms[n].id) <==> !IsFirst(ms, n) by {
        if !IsFirst(ms, n) {
          var j :| 0 <= j < n && ms[j].id == ms[n].id;
          assert prefix[j].id == ms[n].id;
        }
      }
    }
  }

  /** First occurrences carry pairwise different ids. */
  lemma FirstOccurrencesDistinct(ms: seq<Member>)
    ensures DistinctIds(Select(ms, FirstOccurrences(ms)))
  {
    var fo := FirstOccurrences(ms);
    var s := Select(ms, fo);
    forall i, j | 0 <= i < j < |s|
      ensures s[i].id != s[j].id
    {
      assert fo[i] < fo[j] && IsFirst(ms, fo[j]);
    }
  }

  /** The position of the first member with id `id`, or `|ms|` when there is none. */
  function FirstWithId(ms: seq<Member>, id: nat): (k: nat)
    ensures k <= |ms|
    ensures forall j :: 0 <= j < k ==> ms[j].id != id
    ensures k < |ms| <==> HasId(ms, id)
    ensures k < |ms| ==> ms[k].id == id
  {
    if ms == [] then 0
    else if ms[0].id == id then 0
    else
      var k := FirstWithId(ms[1..], id);
      assert forall j :: 0 < j < |ms| ==> ms[j] == ms[1..][j - 1];
      k + 1
  }

  /**
   * `ms.remove(member with id)`: drops the first member with that id and
   * keeps the others in order; leaves the list alone when there is none.
   */
  function RemoveId(ms: seq<Member>, id: nat): (r: seq<Member>)
    ensures HasId(ms, id) ==> |r| == |ms| - 1
    ensures HasId(ms, id) ==> r == ms[..FirstWithId(ms, id)] + ms[FirstWithId(ms, id) + 1..]
    ensures !HasId(ms, id) ==> r == ms
  {
    if ms == [] then []
    else if ms[0].id == id then ms[1..]
    else
      var tail := ms[1..];
      var rt := RemoveId(tail, id);
      assert HasId(ms, id) ==>
               HasId(tail, id) && [ms[0]] + rt == ms[..FirstWithId(ms, id)] + ms[FirstWithId(ms, id) + 1..] by {
        if HasId(ms, id) {
          FirstWithIdAfterHead(ms, id);
          DropAfterHead(ms, FirstWithId(tail, id));
        }
      }
      [ms[0]] + rt
  }

  /** Past a head without the id, the first match sits one place further than in the tail. */
  lemma FirstWithIdAfterHead(ms: seq<Member>, id: nat)
    requires ms != [] && ms[0].id != id && HasId(ms, id)
    ensures HasId(ms[1..], id)
    ensures FirstWithId(ms[1..], id) + 1 == FirstWithId(ms, id) < |ms|
  {
    var j :| 0 <= j < |ms| && ms[j].id == id;
    assert ms[1..][j - 1].id == id;
  }

  /** Dropping position `k` of the tail is dropping position `k + 1` of the list. */
  lemma DropAfterHead(ms: seq<Member>, k: nat)
    requires k + 1 < |ms|
    ensures [ms[0]] + (ms[1..][..k] + ms[1..][k + 1..]) == ms[..k + 1] + ms[k + 2..]
  {
    assert ms[..k + 1] == [ms[0]] + ms[1..][..k];
    assert ms[k + 2..] == ms[1..][k + 1..];
  }

  /** Removal keeps only members of the original list. */
  lemma {:induction false} RemoveIdFrom(ms: seq<Member>, id: nat)
    ensures forall k :: 0 <= k < |RemoveId(ms, id)| ==> RemoveId(ms, id)[k] in ms
  {
    if ms != [] && ms[0].id != id {
      var tail := ms[1..];
      RemoveIdFrom(tail, id);
      var r := RemoveId(ms, id);
      forall k | 0 <= k < |r|
        ensures r[k] in ms
      {
        if k > 0 {
          assert r[k] == RemoveId(tail, id)[k - 1];
        }
      }
    }
  }

  /** Every member whose id is not the removed one is still present. */
  lemma {:induction false} RemoveIdKeeps(ms: seq<Member>, id: nat)
    ensures forall k :: 0 <= k < |ms| && ms[k].id != id ==> HasId(RemoveId(ms, id), ms[k].id)
  {
    if ms != [] {
      var tail := ms[1..];
      RemoveIdKeeps(tail, id);
      var r := RemoveId(ms, id);
      forall k | 0 <= k < |ms| && ms[k].id != id
        ensures HasId(r, ms[k].id)
      {
        if k > 0 && ms[0].id == id {
          assert r[k - 1] == ms[k];
        } else if k > 0 {
          assert tail[k - 1] == ms[k];
          var m :| 0 <= m < |RemoveId(tail, id)| && RemoveId(tail, id)[m].id == ms[k].id;
          assert r[m + 1].id == ms[k].id;
        } else {
          assert r[0].id == ms[0].id;
        }
      }
    }
  }

  /** Removing from a list of distinct ids leaves distinct ids. */
  lemma RemoveIdDistinct(ms: seq<Member>, id: nat)
    requires DistinctIds(ms)
    ensures DistinctIds(RemoveId(ms, id))
  {
    if HasId(ms, id) {
      var f := FirstWithId(ms, id);
      var r := RemoveId(ms, id);
      assert r == ms[..f] + ms[f + 1..];
      forall i, j | 0 <= i < j < |r|
        ensures r[i].id != r[j].id
      {
        DropIndex(ms, f, i);
        DropIndex(ms, f, j);
      }
    }
  }

  /** Position `i` of a list with position `f` dropped is position `i` or `i + 1` of the list. */
  lemma DropIndex(ms: seq<Member>, f: nat, i: nat)
    requires f < |ms| && i < |ms| - 1
    ensures (ms[..f] + ms[f + 1..])[i] == ms[if i < f then i else i + 1]
  {
  }

  /** Among distinct ids, removing an id leaves no member with it. */
  lemma {:induction false} RemoveIdDrops(ms: seq<Member>, id: nat)
    requires DistinctIds(ms)
    ensures !HasId(RemoveId(ms, id), id)
  {
    if ms != [] {
      var tail := ms[1..];
      var r := RemoveId(ms, id);
      if ms[0].id == id {
        forall k | 0 <= k < |r|
          ensures r[k].id != id
        {
          assert r[k] == ms[k + 1];
        }
      } else {
        RemoveIdDrops(tail, id);
        forall k | 0 <= k < |r|
          ensures r[k].id != id
        {
          if k > 0 {
            assert r[k] == RemoveId(tail, id)[k - 1];
          }
        }
      }
    }
  }

  /** The members a message acts on: the mentions, or the author when there are none. */
  function Requested(msg: Message): (r: seq<Member>)
    ensures r != []
  {
    if msg.mentions != [] then msg.mentions else [msg.author]
  }

  /** De-duplicate, drop the bot itself, keep at most five. */
  function Targets(msg: Message, botId: nat): (r: seq<Member>)
    ensures |r| <= MaxTargets
    ensures var once := RemoveId(Dedupe(Requested(msg)), botId);
            |r| == if |once| > MaxTargets then MaxTargets else |once|
  {
    var once := RemoveId(Dedupe(Requested(msg)), botId);
    if |once| > MaxTargets then once[..MaxTargets] else once
  }

  /** De-duplication leaves pairwise different ids. */
  lemma DedupeDistinct(ms: seq<Member>)
    ensures DistinctIds(Dedupe(ms))
  {
    DedupeIsFirstOccurrences(ms);
    FirstOccurrencesDistinct(ms);
  }

  /** A prefix of a list keeps its distinct ids and lacks any id the list lacks. */
  lemma PrefixKeepsIds(ms: seq<Member>, p: seq<Member>, id: nat)
    requires p <= ms
    ensures DistinctIds(ms) ==> DistinctIds(p)
    ensures !HasId(ms, id) ==> !HasId(p, id)
  {
    assert forall k :: 0 <= k < |p| ==> p[k] == ms[k];
  }

  /** The targets carry distinct ids, and the bot is never among them. */
  lemma TargetsDistinct(msg: Message, botId: nat)
    ensures DistinctIds(Targets(msg, botId)) && !HasId(Targets(msg, botId), botId)
  {
    var d := Dedupe(Requested(msg));
    DedupeDistinct(Requested(msg));
    RemoveIdDistinct(d, botId);
    RemoveIdDrops(d, botId);
    PrefixKeepsIds(RemoveId(d, botId), Targets(msg, botId), botId);
  }

  /**
   * The targets are members of the request, in order of first mention:
   * a prefix of the de-duplicated request with the bot taken out.
   */
  lemma TargetsFromRequest(msg: Message, botId: nat)
    ensures Targets(msg, botId) <= RemoveId(Dedupe(Requested(msg)), botId)
    ensures forall k :: 0 <= k < |Targets(msg, botId)| ==> Targets(msg, botId)[k] in Requested(msg)
  {
    var src := Requested(msg);
    var d := Dedupe(src);
    DedupeIsFirstOccurrences(src);
    RemoveIdFrom(d, botId);
    var once := RemoveId(d, botId);
    var t := Targets(msg, botId);
    forall k | 0 <= k < |t|
      ensures t[k] in src
    {
      assert t[k] == once[k];
      var fo := FirstOccurrences(src);
      var m :| 0 <= m < |d| && d[m] == once[k];
      assert d[m] == src[fo[m]];
    }
  }

  /**
   * When the request names at most five distinct members, every one of them
   * other than the bot is a target.
   */
  lemma TargetsCover(msg: Message, botId: nat)
    requires |Dedupe(Requested(msg))| <= MaxTargets
    ensures forall k :: 0 <= k < |Requested(msg)| && Requested(msg)[k].id != botId ==>
              HasId(Targets(msg, botId), Requested(msg)[k].id)
  {
    var src := Requested(msg);
    var d := Dedupe(src);
    DedupeIsFirstOccurrences(src);
    RemoveIdKeeps(d, botId);
    var once := RemoveId(d, botId);
    assert Targets(msg, botId) == once;
    forall k | 0 <= k < |src| && src[k].id != botId
      ensures HasId(once, src[k].id)
    {
      FirstOccurrencesCover(src, src[k].id);
      var m :| 0 <= m < |d| && d[m].id == src[k].id;
      assert HasId(once, d[m].id);
    }
  }

  /** With no mentions the author is the only target, unless the author is the bot. */
  lemma NoMentionsTargetsAuthor(msg: Message, botId: nat)
    requires msg.mentions == []
    ensures Targets(msg, botId) == if msg.author.id == botId then [] else [msg.author]
  {
    assert Dedupe([msg.author]) == [msg.author] by {
      assert [msg.author][..0] == [];
    }
    assert HasId([msg.author], botId) <==> msg.author.id == botId;
  }

  // ---------------------------------------------------------------------
  // The decision
  // ---------------------------------------------------------------------

  /** The 28-day cap on a timeout's length. */
  function Clamp(minutes: nat): (r: nat)
    ensures r <= minutes && r <= MaxTimeoutMinutes
    ensures r == minutes || r == MaxTimeoutMinutes
  {
    if minutes > MaxTimeoutMinutes then MaxTimeoutMinutes else minutes
  }

  /**
   * The action for one target, given the effective safe roles, its draw and
   * the rendered length the replies show. The safe check comes before the
   * length is turned into a `timedelta`, so only an unprotected target can
   * overflow.
   */
  function ActionFor(target: Member, author: Member, safe: seq<nat>, draw: Roll, shown: string): (a: Action)
    ensures a.target == target && a.minutes == draw.minutes
    ensures a.shown == shown && (a.toSelf <==> target.id == author.id)
    ensures a.Spared? <==> SharesRole(target.roles, safe)
    ensures a.Overflowed? <==> !SharesRole(target.roles, safe) && draw.minutes >= TimedeltaLimitMinutes
    ensures a.TimedOut? ==> a.applied == Clamp(draw.minutes) && a.until == draw.now + a.applied
  {
    var toSelf := target.id == author.id;
    if SharesRole(target.roles, safe) then Spared(target, draw.minutes, shown, toSelf)
    else if draw.minutes >= TimedeltaLimitMinutes then Overflowed(target, draw.minutes, shown, toSelf)
    else
      var applied := Clamp(draw.minutes);
      TimedOut(target, draw.minutes, applied, draw.now + applied, shown, toSelf)
  }

  /** What the replies show for each draw: its length rendered to two units. */
  function Shows(draws: seq<Roll>): (r: seq<string>)
    ensures |r| == |draws|
    ensures forall k :: 0 <= k < |draws| ==> r[k] == Display(draws[k].minutes, 2)
  {
    seq(|draws|, k requires 0 <= k < |draws| => Display(draws[k].minutes, 2))
  }

  /** The handler stopped: the last action raised. */
  predicate Halted(actions: seq<Action>) {
    actions != [] && actions[|actions| - 1].Overflowed?
  }

  /**
   * The actions of the per-target loop, the k-th target using the k-th draw
   * and the k-th rendered length: one per target, up to and including the
   * first that overflows.
   */
  function ActionsFor(targets: seq<Member>, author: Member, safe: seq<nat>, draws: seq<Roll>, shows: seq<string>)
    : (r: seq<Action>)
    requires |draws| >= |targets| && |shows| >= |targets|
    ensures |r| <= |targets|
    ensures |r| < |targets| ==> Halted(r)
    ensures forall k :: 0 <= k < |r| - 1 ==> !r[k].Overflowed?
  {
    if targets == [] then []
    else
      var n := |targets| - 1;
      var done := ActionsFor(targets[..n], author, safe, draws, shows);
      if Halted(done) then done else done + [ActionFor(targets[n], author, safe, draws[n], shows[n])]
  }

  /** The k-th action is the k-th target's, with the k-th draw. */
  lemma {:induction false} ActionsForAt(targets: seq<Member>, author: Member, safe: seq<nat>, draws: seq<Roll>,
                                        shows: seq<string>)
    requires |draws| >= |targets| && |shows| >= |targets|
    ensures var r := ActionsFor(targets, author, safe, draws, shows);
            forall k :: 0 <= k < |r| ==> r[k] == ActionFor(targets[k], author, safe, draws[k], shows[k])
  {
    if targets != [] {
      var n := |targets| - 1;
      ActionsForAt(targets[..n], author, safe, draws, shows);
    }
  }

  /**
   * An unprotected target whose length overflows is the last one reached:
   * no target after it gets an action.
   */
  lemma OverflowEndsLoop(targets: seq<Member>, author: Member, safe: seq<nat>, draws: seq<Roll>,
                         shows: seq<string>, j: nat)
    requires j < |targets| <= |draws| && |targets| <= |shows|
    requires !SharesRole(targets[j].roles, safe) && draws[j].minutes >= TimedeltaLimitMinutes
    ensures |ActionsFor(targets, author, safe, draws, shows)| <= j + 1
  {
    ActionsForAt(targets, author, safe, draws, shows);
  }

  /** Once the loop has stopped, further targets add nothing. */
  lemma {:induction false} HaltedStays(targets: seq<Member>, j: nat, author: Member, safe: seq<nat>,
                                       draws: seq<Roll>, shows: seq<string>)
    requires j <= |targets| <= |draws| && |targets| <= |shows|
    requires Halted(ActionsFor(targets[..j], author, safe, draws, shows))
    ensures ActionsFor(targets, author, safe, draws, shows) == ActionsFor(targets[..j], author, safe, draws, shows)
    decreases |targets|
  {
    if |targets| == j {
      assert targets[..j] == targets;
    } else {
      var n := |targets| - 1;
      assert targets[..n][..j] == targets[..j];
      HaltedStays(targets[..n], j, author, safe, draws, shows);
    }
  }

  /** The whole handler as one function of the message, the configuration, the bot's id and the draws. */
  function Decide(msg: Message, guilds: map<nat, GuildSettings>, botId: nat, draws: seq<Roll>): (r: Outcome)
    requires |draws| >= MaxTargets
    ensures msg.author.isBot ==> r == Ignored
    ensures r == Exit <==> !msg.author.isBot && guilds == map[]
    ensures (!msg.author.isBot && guilds != map[] &&
             (msg.guildId !in guilds ||
              msg.channelId !in guilds[msg.guildId].channels ||
              !AnyTrigger(msg.content, guilds[msg.guildId].triggers))) ==> r == Ignored
    ensures r.Refused? || r.Acted? ==>
              msg.guildId in guilds &&
              msg.channelId in guilds[msg.guildId].channels &&
              AnyTrigger(msg.content, guilds[msg.guildId].triggers)
    ensures r.Refused? ==> msg.mentions != [] && !SharesRole(msg.author.roles, guilds[msg.guildId].adminRoles)
    ensures r.Acted? ==> msg.mentions == [] || SharesRole(msg.author.roles, guilds[msg.guildId].adminRoles)
    ensures (!msg.author.isBot && msg.guildId in guilds &&
             msg.channelId in guilds[msg.guildId].channels &&
             AnyTrigger(msg.content, guilds[msg.guildId].triggers) &&
             (msg.mentions == [] || SharesRole(msg.author.roles, guilds[msg.guildId].adminRoles))) ==> r.Acted?
  {
    if msg.author.isBot then Ignored
    else if guilds == map[] then Exit
    else if msg.guildId !in guilds then Ignored
    else
      var settings := guilds[msg.guildId];
      if msg.channelId !in settings.channels then Ignored
      else if settings.triggers == [] then Ignored
      else if !AnyTrigger(msg.content, settings.triggers) then Ignored
      else if msg.mentions != [] && !SharesRole(msg.author.roles, settings.adminRoles) then Refused
      else Acted(ActionsFor(Targets(msg, botId), msg.author, settings.safeRoles + settings.adminRoles, draws, Shows(draws)))
  }

  /**
   * Past the guards, a request naming others is refused exactly when the
   * author holds none of the admin roles; with no admin role configured
   * every such request is refused.
   */
  lemma AdminGate(msg: Message, guilds: map<nat, GuildSettings>, botId: nat, draws: seq<Roll>)
    requires |draws| >= MaxTargets && !msg.author.isBot
    requires msg.guildId in guilds
    requires msg.channelId in guilds[msg.guildId].channels
    requires AnyTrigger(msg.content, guilds[msg.guildId].triggers)
    ensures Decide(msg, guilds, botId, draws) == Refused <==>
              msg.mentions != [] && !SharesRole(msg.author.roles, guilds[msg.guildId].adminRoles)
    ensures Decide(msg, guilds, botId, draws).Acted? <==>
              msg.mentions == [] || SharesRole(msg.author.roles, guilds[msg.guildId].adminRoles)
    ensures guilds[msg.guildId].adminRoles == [] && msg.mentions != [] ==>
              Decide(msg, guilds, botId, draws) == Refused
  {
    var settings := guilds[msg.guildId];
    assert settings.triggers != [];
    assert settings.adminRoles == [] ==> !SharesRole(msg.author.roles, settings.adminRoles);
  }

  /**
   * Each acted-on target gets one action, in target order, showing its own
   * generated length rendered to two units and noting whether the author
   * named themself: spared exactly when it holds a safe or an admin role;
   * otherwise the handler raises if the length does not fit a `timedelta`,
   * and that target is the last one reached; otherwise the target is timed
   * out for the generated length capped at 28 days, until the current time
   * plus that capped length. Every target gets its action unless the
   * handler raised first.
   */
  lemma ActedFacts(msg: Message, guilds: map<nat, GuildSettings>, botId: nat, draws: seq<Roll>)
    requires |draws| >= MaxTargets
    requires Decide(msg, guilds, botId, draws).Acted?
    ensures var actions := Decide(msg, guilds, botId, draws).actions;
            var targets := Targets(msg, botId);
            var settings := guilds[msg.guildId];
            |actions| <= |targets| &&
            (|actions| < |targets| ==> Halted(actions)) &&
            forall k :: 0 <= k < |actions| ==>
              actions[k].target == targets[k] &&
              actions[k].minutes == draws[k].minutes &&
              actions[k].shown == Shows(draws)[k] &&
              (actions[k].toSelf <==> targets[k].id == msg.author.id) &&
              (actions[k].Spared? <==>
                 SharesRole(targets[k].roles, settings.safeRoles) ||
                 SharesRole(targets[k].roles, settings.adminRoles)) &&
              (actions[k].Overflowed? <==>
                 !actions[k].Spared? && draws[k].minutes >= TimedeltaLimitMinutes) &&
              (actions[k].Overflowed? ==> k == |actions| - 1) &&
              (actions[k].TimedOut? ==>
                 actions[k].applied <= MaxTimeoutMinutes &&
                 (draws[k].minutes <= MaxTimeoutMinutes ==> actions[k].applied == draws[k].minutes) &&
                 (draws[k].minutes > MaxTimeoutMinutes ==> actions[k].applied == MaxTimeoutMinutes) &&
                 actions[k].until == draws[k].now + actions[k].applied)
  {
    var settings := guilds[msg.guildId];
    var targets := Targets(msg, botId);
    ActionsForAt(targets, msg.author, settings.safeRoles + settings.adminRoles, draws, Shows(draws));
    forall k | 0 <= k < |targets|
      ensures SharesRole(targets[k].roles, settings.safeRoles + settings.adminRoles) <==>
                SharesRole(targets[k].roles, settings.safeRoles) ||
                SharesRole(targets[k].roles, settings.adminRoles)
    {
      SharesRoleUnion(targets[k].roles, settings.safeRoles, settings.adminRoles);
    }
  }

  /** Holding a role of `a + b` is holding a role of `a` or of `b`. */
  lemma SharesRoleUnion(roles: seq<nat>, a: seq<nat>, b: seq<nat>)
    ensures SharesRole(roles, a + b) <==> SharesRole(roles, a) || SharesRole(roles, b)
  {
    if SharesRole(roles, a + b) {
      var i :| 0 <= i < |roles| && roles[i] in a + b;
      assert roles[i] in a || roles[i] in b;
    }
    if SharesRole(roles, a) {
      var i :| 0 <= i < |roles| && roles[i] in a;
      assert roles[i] in a + b;
    }
    if SharesRole(roles, b) {
      var i :| 0 <= i < |roles| && roles[i] in b;
      assert roles[i] in a + b;
    }
  }

  /** While the loop has not stopped, one more target extends the actions by its own action. */
  lemma AppendAction(actions: seq<Action>, targets: seq<Member>, i: nat, author: Member, safe: seq<nat>,
                     draws: seq<Roll>, shows: seq<string>)
    requires i < |targets| <= |draws| && |targets| <= |shows|
    requires actions == ActionsFor(targets[..i], author, safe, draws, shows) && !Halted(actions)
    ensures actions + [ActionFor(targets[i], author, safe, draws[i], shows[i])] ==
            ActionsFor(targets[..i + 1], author, safe, draws, shows)
  {
    assert targets[..i + 1][..i] == targets[..i];
  }

  /**
   * main.py lines 149-156: de-duplicate the mentions (or take the author), remove
   * the bot if present, and keep the first five.
   */
  method SelectTargets(msg: Message, botId: nat) returns (targets: seq<Member>)
    ensures targets == Targets(msg, botId)
  {
    targets := Dedupe(Requested(msg));
    if HasId(targets, botId) {
      targets := RemoveId(targets, botId);
    }
    if |targets| > MaxTargets {
      targets := targets[..MaxTargets];
    }
  }

  /**
   * One pass of the per-target loop (main.py lines 175-200) once the length
   * is rendered: a target holding a safe role is spared and the loop moves
   * on; for any other the length becomes a `timedelta`, which overflows at
   * a billion days, and is otherwise timed out for the length capped at 28
   * days, until now plus that capped length.
   */
  method ActOn(target: Member, author: Member, safeRoles: seq<nat>, draw: Roll, shown: string)
    returns (action: Action)
    ensures action == ActionFor(target, author, safeRoles, draw, shown)
  {
    var toSelf := target.id == author.id;
    if SharesRole(target.roles, safeRoles) {
      return Spared(target, draw.minutes, shown, toSelf);
    }
    if draw.minutes >= TimedeltaLimitMinutes {
      return Overflowed(target, draw.minutes, shown, toSelf);
    }
    var applied := draw.minutes;
    if applied > MaxTimeoutMinutes {
      applied := MaxTimeoutMinutes;
    }
    action := TimedOut(target, draw.minutes, applied, draw.now + applied, shown, toSelf);
  }

  /**
   * The per-target loop (main.py lines 162-200): one action per target, in
   * order, each rendering its own generated length and using its own draw,
   * until a length overflows and the exception leaves the loop.
   */
  method ActOnTargets(targets: seq<Member>, author: Member, safeRoles: seq<nat>, draws: seq<Roll>)
    returns (actions: seq<Action>)
    requires |draws| >= |targets|
    ensures actions == ActionsFor(targets, author, safeRoles, draws, Shows(draws))
  {
    actions := [];
    ghost var shows := Shows(draws);
    for i := 0 to |targets|
      invariant actions == ActionsFor(targets[..i], author, safeRoles, draws, shows)
      invariant !Halted(actions)
    {
      var shown := ConvertMinutesToDisplayStr(draws[i].minutes, 2);
      assert shown == shows[i];
      var action := ActOn(targets[i], author, safeRoles, draws[i], shown);
      AppendAction(actions, targets, i, author, safeRoles, draws, shows);
      actions := actions + [action];
      if action.Overflowed? {
        HaltedStays(targets, i + 1, author, safeRoles, draws, shows);
        return;
      }
    }
    assert targets[..|targets|] == targets;
  }

  /**
   * The handler: the guards return early in the source's order, the safe
   * roles are extended with the admin roles, and the chosen targets are
   * acted on in turn.
   */
  method OnMessage(msg: Message, guilds: map<nat, GuildSettings>, botId: nat, draws: seq<Roll>)
    returns (outcome: Outcome)
    requires |draws| >= MaxTargets
    ensures outcome == Decide(msg, guilds, botId, draws)
  {
    if msg.author.isBot {
      return Ignored;
    }
    if guilds == map[] {
      return Exit;
    }
    if msg.guildId !in guilds {
      return Ignored;
    }
    var settings := guilds[msg.guildId];
    if msg.channelId !in settings.channels {
      return Ignored;
    }
    var triggers := settings.triggers;
    if triggers == [] {
      return Ignored;
    }
    if !AnyTrigger(msg.content, triggers) {
      return Ignored;
    }
    var adminRoles := settings.adminRoles;
    if msg.mentions != [] && !SharesRole(msg.author.roles, adminRoles) {
      return Refused;
    }
    var safeRoles := settings.safeRoles;
    safeRoles := safeRoles + adminRoles;
    var targets := SelectTargets(msg, botId);
    var actions := ActOnTargets(targets, msg.author, safeRoles, draws);
    return Acted(actions);
  }
}
