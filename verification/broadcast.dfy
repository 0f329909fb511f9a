/**
 One firing of the reminder: every guild the client knows, in the order the
 client lists them, is visited once. In each, the first text channel named
 exactly "spam" receives the fixed reminder text. A send that the platform
 rejects with an HTTP error is logged and the next guild is visited; any
 other exception leaves the loop, and the guilds after it get nothing.

 The platform is an oracle: what it answers to a send on a channel. Log
 lines are not modelled as text; each guild's outcome records what was
 logged.
 */
module Broadcast {

  datatype Option<T> = None | Some(value: T)

  /** A text channel of a guild, as the gateway client shows it. */
  datatype Channel = Channel(id: nat, name: string)

  /** A guild: its name (used only in log lines) and its text channels in
      the order the client lists them. */
  datatype Guild = Guild(id: nat, name: string, textChannels: seq<Channel>)

  /** What `SendMessageAsync` does: complete, throw an `HttpException`
      carrying a message, or throw any other exception. */
  datatype SendResult = Delivered | HttpFailure(message: string) | OtherFailure

  type Platform = (Channel, string) -> SendResult

  /** What happened in one guild. `Aborted` is the send whose exception
      was not caught: the loop ends there. */
  datatype GuildOutcome =
    | Sent(channel: Channel, text: string)
    | SendFailedLogged(channel: Channel, text: string, error: string)
    | Aborted(channel: Channel, text: string)
    | NoChannel

  /** The channel name matched, case-sensitively and exactly. */
  const ReminderChannelName: string := "spam"

  /** The one message the bot ever sends. */
  const ReminderText: string := "@everyone \U{26A0}\U{FE0F} **VOC\U{CA} FEZ O DUOLINGO HOJE?** \U{1F989}\U{1F525}"

  /** The position of the first channel named exactly `name`, or the
      number of channels when none is. */
  function ChannelIndex(channels: seq<Channel>, name: string): (i: nat)
    ensures i <= |channels|
    ensures i < |channels| ==> channels[i].name == name
    ensures forall j :: 0 <= j < i ==> channels[j].name != name
  {
    if channels == [] || channels[0].name == name then 0
    else 1 + ChannelIndex(channels[1..], name)
  }

  /** `FirstOrDefault(c => c.Name == name)`: the first channel with that
      exact name, or none when no channel has it. */
  function FindChannel(channels: seq<Channel>, name: string): (r: Option<Channel>)
    ensures r.None? <==> forall i :: 0 <= i < |channels| ==> channels[i].name != name
    ensures r.Some? ==> r.value.name == name && r.value in channels
  {
    var i := ChannelIndex(channels, name);
    if i < |channels| then Some(channels[i]) else None
  }

  /** Whichever channel is the first with that exact name is the one found. */
  lemma {:induction false} FindChannelIsFirstMatch(channels: seq<Channel>, name: string, i: nat)
    requires i < |channels| && channels[i].name == name
    requires forall j :: 0 <= j < i ==> channels[j].name != name
    ensures FindChannel(channels, name) == Some(channels[i])
  {
  }

  /** The rule lines 84-99 apply in one guild, stated against the position
      of the first channel named exactly "spam": a guild without one is
      sent nothing; otherwise the fixed text goes to that channel, and the
      outcome is a delivery, a logged HTTP failure carrying its message, or
      the escaping exception, exactly as the platform answers. */
  predicate FollowsCatchRule(guild: Guild, platform: Platform, outcome: GuildOutcome)
  {
    var channels := guild.textChannels;
    var i := ChannelIndex(channels, ReminderChannelName);
    && (outcome.NoChannel? <==> i == |channels|)
    && (i < |channels| ==>
          var answer := platform(channels[i], ReminderText);
          && outcome.channel == channels[i]
          && outcome.text == ReminderText
          && (outcome.Sent? <==> answer.Delivered?)
          && (outcome.SendFailedLogged? <==> answer.HttpFailure?)
          && (outcome.SendFailedLogged? ==> outcome.error == answer.message)
          && (outcome.Aborted? <==> answer.OtherFailure?))
  }

  /** The outcome in one guild, as lines 84-100 of the service decide it. */
  function Visit(guild: Guild, platform: Platform): (outcome: GuildOutcome)
    ensures FollowsCatchRule(guild, platform, outcome)
  {
    match FindChannel(guild.textChannels, ReminderChannelName)
    case None => NoChannel
    case Some(c) =>
      match platform(c, ReminderText)
      case Delivered => Sent(c, ReminderText)
      case HttpFailure(message) => SendFailedLogged(c, ReminderText, message)
      case OtherFailure => Aborted(c, ReminderText)
  }

  /** The outcomes of one firing over `guilds`: one per guild, in order,
      up to and including the first uncaught exception. */
  function Outcomes(guilds: seq<Guild>, platform: Platform): (r: seq<GuildOutcome>)
    ensures |r| <= |guilds|
    decreases |guilds|
  {
    if guilds == [] then []
    else
      var first := Visit(guilds[0], platform);
      if first.Aborted? then [first]
      else [first] + Outcomes(guilds[1..], platform)
  }

  /** True when the firing ended with an exception that escaped the loop. */
  predicate Escaped(outcomes: seq<GuildOutcome>)
  {
    outcomes != [] && outcomes[|outcomes| - 1].Aborted?
  }

  /** The body of the `foreach`: look the channel up and send, catching
      only `HttpException`. An `Aborted` result stands for the exception
      that propagates out of the loop. */
  method SendToGuild(guild: Guild, platform: Platform) returns (outcome: GuildOutcome)
    ensures FollowsCatchRule(guild, platform, outcome)
    ensures outcome == Visit(guild, platform)
  {
    var channel := FindChannel(guild.textChannels, ReminderChannelName);
    if channel.Some? {
      var c := channel.value;
      match platform(c, ReminderText)
      case Delivered =>
        outcome := Sent(c, ReminderText);
      case HttpFailure(message) =>
        outcome := SendFailedLogged(c, ReminderText, message);
      case OtherFailure =>
        outcome := Aborted(c, ReminderText);
    } else {
      outcome := NoChannel;
    }
  }

  /** The outcome of every guild the firing reaches is that guild's own
      visit, in order; only the last one can be an uncaught exception, and
      the firing stops before the last guild only because of one. */
  lemma {:induction false} OutcomesShape(guilds: seq<Guild>, platform: Platform)
    ensures forall k {:trigger Visit(guilds[k], platform)} :: 0 <= k < |Outcomes(guilds, platform)| ==>
      Outcomes(guilds, platform)[k] == Visit(guilds[k], platform)
    ensures forall k :: 0 <= k < |Outcomes(guilds, platform)| - 1 ==> !Outcomes(guilds, platform)[k].Aborted?
    ensures |Outcomes(guilds, platform)| < |guilds| ==>
      Outcomes(guilds, platform) != [] && Outcomes(guilds, platform)[|Outcomes(guilds, platform)| - 1].Aborted?
    decreases |guilds|
  {
    if guilds != [] && !Visit(guilds[0], platform).Aborted? {
      OutcomesShape(guilds[1..], platform);
      var first, rest := Visit(guilds[0], platform), Outcomes(guilds[1..], platform);
      assert Outcomes(guilds, platform) == [first] + rest;
      assert forall k :: 1 <= k < 1 + |rest| ==> ([first] + rest)[k] == rest[k - 1] && guilds[1..][k - 1] == guilds[k];
      if rest != [] {
        assert ([first] + rest)[|rest|] == rest[|rest| - 1];
      }
    }
  }

  /** Concatenation is associative; the loops below extend a prefix one
      element at a time. */
  lemma AppendAssociative<T>(a: seq<T>, b: seq<T>, c: seq<T>)
    ensures (a + b) + c == a + (b + c)
  {
  }

  /** The `foreach` over the guilds, in the order the client lists them. */
  method SendReminders(guilds: seq<Guild>, platform: Platform) returns (outcomes: seq<GuildOutcome>)
    ensures outcomes == Outcomes(guilds, platform)
  {
    outcomes := [];
    var i := 0;
    assert guilds[0..] == guilds;
    while i < |guilds|
      invariant i <= |guilds|
      invariant outcomes + Outcomes(guilds[i..], platform) == Outcomes(guilds, platform)
    {
      var outcome := SendToGuild(guilds[i], platform);
      assert guilds[i..][1..] == guilds[i + 1..];
      if outcome.Aborted? {
        assert Outcomes(guilds[i..], platform) == [outcome];
        outcomes := outcomes + [outcome];
        return;
      }
      assert Outcomes(guilds[i..], platform) == [outcome] + Outcomes(guilds[i + 1..], platform);
      AppendAssociative(outcomes, [outcome], Outcomes(guilds[i + 1..], platform));
      outcomes := outcomes + [outcome];
      i := i + 1;
    }
  }

  /** Every guild the firing reaches is treated by the catch rule: one with
      no "spam" channel is sent nothing, and any other is sent the same
      fixed text on its first channel with that name. */
  lemma {:induction false} SentTextIsFixed(guilds: seq<Guild>, platform: Platform, k: nat)
    requires k < |Outcomes(guilds, platform)|
    ensures FollowsCatchRule(guilds[k], platform, Outcomes(guilds, platform)[k])
    ensures Outcomes(guilds, platform)[k].NoChannel?
      <==> forall c :: c in guilds[k].textChannels ==> c.name != ReminderChannelName
    ensures !Outcomes(guilds, platform)[k].NoChannel? ==>
      && Outcomes(guilds, platform)[k].text == ReminderText
      && Outcomes(guilds, platform)[k].channel.name == ReminderChannelName
      && Outcomes(guilds, platform)[k].channel
         == guilds[k].textChannels[ChannelIndex(guilds[k].textChannels, ReminderChannelName)]
  {
    OutcomesShape(guilds, platform);
    assert Outcomes(guilds, platform)[k] == Visit(guilds[k], platform);
  }

  /** The firing reaches every guild exactly when no send before the last
      guild throws anything but an `HttpException`, and it ends without an
      escaping exception exactly when no send does. */
  lemma {:induction false} CompletesUnlessUncaught(guilds: seq<Guild>, platform: Platform)
    ensures |Outcomes(guilds, platform)| == |guilds|
      <==> forall k :: 0 <= k < |guilds| - 1 ==> !Visit(guilds[k], platform).Aborted?
    ensures !Escaped(Outcomes(guilds, platform))
      <==> forall k :: 0 <= k < |guilds| ==> !Visit(guilds[k], platform).Aborted?
  {
    OutcomesShape(guilds, platform);
    var r := Outcomes(guilds, platform);
    if |r| < |guilds| {
      assert r[|r| - 1] == Visit(guilds[|r| - 1], platform);
    }
    if |r| == |guilds| {
      forall k | 0 <= k < |guilds| - 1
        ensures !Visit(guilds[k], platform).Aborted?
      {
        assert r[k] == Visit(guilds[k], platform);
      }
      if r != [] {
        assert r[|r| - 1] == Visit(guilds[|r| - 1], platform);
      }
    }
  }

  /** Two platforms that agree on which sends throw something other than
      an `HttpException` find the same channel in a guild and agree on
      whether the send there escapes. */
  lemma {:induction false} VisitsAgree(guild: Guild, p: Platform, q: Platform)
    requires forall c: Channel, text: string :: p(c, text).OtherFailure? <==> q(c, text).OtherFailure?
    ensures Visit(guild, p).NoChannel? == Visit(guild, q).NoChannel?
    ensures Visit(guild, p).Aborted? == Visit(guild, q).Aborted?
    ensures !Visit(guild, p).NoChannel? ==> Visit(guild, p).channel == Visit(guild, q).channel
  {
  }

  /** Which guilds a firing reaches depends only on which sends throw
      something other than an `HttpException`: two platforms that agree on
      that reach the same guilds, find the same channels, and differ at most
      in whether a send was delivered or failed and was logged. */
  lemma {:induction false} HttpFailuresDoNotStopTheLoop(guilds: seq<Guild>, p: Platform, q: Platform)
    requires forall c: Channel, text: string :: p(c, text).OtherFailure? <==> q(c, text).OtherFailure?
    ensures |Outcomes(guilds, p)| == |Outcomes(guilds, q)|
    ensures forall k :: 0 <= k < |Outcomes(guilds, p)| ==>
      && Outcomes(guilds, p)[k].NoChannel? == Outcomes(guilds, q)[k].NoChannel?
      && Outcomes(guilds, p)[k].Aborted? == Outcomes(guilds, q)[k].Aborted?
      && (!Outcomes(guilds, p)[k].NoChannel? ==> Outcomes(guilds, p)[k].channel == Outcomes(guilds, q)[k].channel)
    decreases |guilds|
  {
    if guilds != [] {
      VisitsAgree(guilds[0], p, q);
      if !Visit(guilds[0], p).Aborted? {
        HttpFailuresDoNotStopTheLoop(guilds[1..], p, q);
      }
    }
    OutcomesShape(guilds, p);
    OutcomesShape(guilds, q);
    var rp, rq := Outcomes(guilds, p), Outcomes(guilds, q);
    forall k | 0 <= k < |rp|
      ensures rp[k].NoChannel? == rq[k].NoChannel? && rp[k].Aborted? == rq[k].Aborted?
      ensures !rp[k].NoChannel? ==> rp[k].channel == rq[k].channel
    {
      VisitsAgree(guilds[k], p, q);
      assert rp[k] == Visit(guilds[k], p) && rq[k] == Visit(guilds[k], q);
    }
  }
}
