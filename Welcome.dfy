/**
 The welcome cog (welcome/welcome.py): a greeting posted to the new-members
 channel when someone joins, and the `readrules` command that grants the base
 role to a member who does not hold it yet.
 */
module Welcome {
  import opened Wrappers
  import opened Text
  import opened Discord

  // The cog's settings.

  /** The greeting template: the member's mention, then the rules channel's mention. */
  const GREETING: string := GREETING_HEAD + "{}" + GREETING_MID + "{}" + GREETING_TAIL
  const GREETING_HEAD: string :=
    "Welcome to the LinuxServer.io Discord "
    + "server "
  const GREETING_MID: string :=
    "! We kindly ask that "
    + "you first read our "
  const GREETING_TAIL: string :=
    ". Once you're happy, say `^readrules` "
    + "in this channel to get access to all "
    + "of our public channels."

  const ELEVATE_CONFIRM: string := "Thanks, you now have access to all public channels!"
  const ALREADY_VERIFIED: string := "You already have access to our public channels."
  const BASE_ROLE: string := "verified"
  const DEFAULT_CHANNEL: string := "new-members"
  const RULES_CHANNEL: string := "rules"

  // ---------------------------------------------------------------------------
  // readrules

  /**
   What `readrules` does, given the invoking member as the server reports it
   (`None` when the command came as a direct message, which has no server):
   one "already verified" message for every role named like the base role,
   or, when there is none, the base role followed by one confirmation.
   */
  function ReadRulesEffects(invoker: Option<Member>): (effects: seq<Effect>)
    ensures invoker.None? ==> effects == []
    ensures invoker.Some? ==>
              |effects| >= 1
              && forall e :: e in effects ==> (e.SendDM? || e.AddRole?) && e.member == invoker.value.id
  {
    match invoker
    case None => []
    case Some(m) =>
      var held := multiset(m.roles)[BASE_ROLE];
      if held > 0 then seq(held, _ => SendDM(m.id, ALREADY_VERIFIED))
      else [AddRole(m.id, BASE_ROLE), SendDM(m.id, ELEVATE_CONFIRM)]
  }

  /**
   The command handler: walks the member's roles with a flag, sending a
   message for each role named like the base role, and grants the role
   afterwards when the flag is still down.
   */
  method ReadRules(invoker: Option<Member>) returns (effects: seq<Effect>)
    ensures effects == ReadRulesEffects(invoker)
  {
    effects := [];
    if invoker.Some? {
      var member := invoker.value;
      var alreadyUser := false;
      var i := 0;
      while i < |member.roles|
        invariant 0 <= i <= |member.roles|
        invariant alreadyUser == (BASE_ROLE in member.roles[..i])
        invariant effects == seq(multiset(member.roles[..i])[BASE_ROLE], _ => SendDM(member.id, ALREADY_VERIFIED))
      {
        assert member.roles[..i + 1] == member.roles[..i] + [member.roles[i]];
        if member.roles[i] == BASE_ROLE {
          alreadyUser := true;
          effects := effects + [SendDM(member.id, ALREADY_VERIFIED)];
        }
        i := i + 1;
      }
      assert member.roles[..i] == member.roles;
      if !alreadyUser {
        effects := effects + [AddRole(member.id, BASE_ROLE), SendDM(member.id, ELEVATE_CONFIRM)];
      }
    }
  }

  /** The positions among the first `n` roles that hold a role named like the base role. */
  function BaseRolePositions(roles: seq<string>, n: nat): set<nat>
    requires n <= |roles|
  {
    set i: nat | i < n && roles[i] == BASE_ROLE
  }

  /** Counting by positions and counting by occurrences agree. */
  lemma {:induction false} BaseRoleCount(roles: seq<string>, n: nat)
    requires n <= |roles|
    ensures |BaseRolePositions(roles, n)| == multiset(roles[..n])[BASE_ROLE]
  {
    if n > 0 {
      BaseRoleCount(roles, n - 1);
      assert roles[..n] == roles[..n - 1] + [roles[n - 1]];
      if roles[n - 1] == BASE_ROLE {
        assert BaseRolePositions(roles, n) == BaseRolePositions(roles, n - 1) + {n - 1};
      } else {
        assert BaseRolePositions(roles, n) == BaseRolePositions(roles, n - 1);
      }
    }
  }

  /** Invoked from a direct message, `readrules` does nothing. */
  lemma ReadRulesIgnoresDirectMessages()
    ensures ReadRulesEffects(None) == []
  {
  }

  /**
   A member holding a role named like the base role is given no role; the
   member gets one "already verified" message for each such role, since the
   loop over the roles does not stop at the first.
   */
  lemma AlreadyVerifiedGetsNoRole(m: Member)
    requires BASE_ROLE in m.roles
    ensures var effects := ReadRulesEffects(Some(m));
      |effects| == |BaseRolePositions(m.roles, |m.roles|)|
      && forall e :: e in effects ==> e == SendDM(m.id, ALREADY_VERIFIED)
  {
    BaseRoleCount(m.roles, |m.roles|);
    assert m.roles[..|m.roles|] == m.roles;
  }

  /** A member without the base role gets exactly the role, then one confirmation. */
  lemma UnverifiedIsElevated(m: Member)
    requires BASE_ROLE !in m.roles
    ensures ReadRulesEffects(Some(m)) == [AddRole(m.id, BASE_ROLE), SendDM(m.id, ELEVATE_CONFIRM)]
  {
  }

  /**
   At most one role is ever added and it is the base role; when it is added it
   comes first, before anything is sent, and the confirmation is the only
   other action.
   */
  lemma AddsOnlyBaseRole(invoker: Option<Member>)
    ensures forall e :: e in ReadRulesEffects(invoker) && e.AddRole? ==> e.role == BASE_ROLE
    ensures |ReadRulesEffects(invoker)| >= 1 && ReadRulesEffects(invoker)[0].AddRole? ==>
      |ReadRulesEffects(invoker)| == 2 && !ReadRulesEffects(invoker)[1].AddRole?
    ensures forall i, j :: 0 <= i < j < |ReadRulesEffects(invoker)| ==>
      !(ReadRulesEffects(invoker)[i].AddRole? && ReadRulesEffects(invoker)[j].AddRole?)
    ensures forall i :: 0 <= i < |ReadRulesEffects(invoker)| && ReadRulesEffects(invoker)[i].AddRole? ==>
      i == 0 && invoker.Some?
      && ReadRulesEffects(invoker) == [AddRole(invoker.value.id, BASE_ROLE), SendDM(invoker.value.id, ELEVATE_CONFIRM)]
  {
  }

  /**
   The outcome depends only on which of the member's roles are named exactly
   like the base role: two members with the same identifier whose role lists
   agree on those positions get the same effects.
   */
  lemma DependsOnlyOnBaseRoleNames(m1: Member, m2: Member)
    requires m1.id == m2.id && |m1.roles| == |m2.roles|
    requires forall i :: 0 <= i < |m1.roles| ==> (m1.roles[i] == BASE_ROLE <==> m2.roles[i] == BASE_ROLE)
    ensures ReadRulesEffects(Some(m1)) == ReadRulesEffects(Some(m2))
  {
    var n := |m1.roles|;
    assert BaseRolePositions(m1.roles, n) == BaseRolePositions(m2.roles, n);
    BaseRoleCount(m1.roles, n);
    BaseRoleCount(m2.roles, n);
    assert m1.roles[..n] == m1.roles;
    assert m2.roles[..n] == m2.roles;
  }

  /** The comparison is case-sensitive: a role called "Verified" does not count. */
  lemma CapitalisedRoleDoesNotCount(id: string)
    ensures ReadRulesEffects(Some(Member(id, ["Verified"])))
      == [AddRole(id, BASE_ROLE), SendDM(id, ELEVATE_CONFIRM)]
  {
    UnverifiedIsElevated(Member(id, ["Verified"]));
  }

  // ---------------------------------------------------------------------------
  // member_join

  /**
   `discord.utils.get(channels, name=...)`: the first channel with that name,
   or `None` when there is none.
   */
  function FindChannel(channels: seq<Channel>, name: string): (found: Option<Channel>)
    ensures found.None? <==> forall i :: 0 <= i < |channels| ==> channels[i].name != name
    ensures found.Some? ==>
              exists i :: 0 <= i < |channels| && channels[i] == found.value && channels[i].name == name
                          && forall j :: 0 <= j < i ==> channels[j].name != name
  {
    if |channels| == 0 then None
    else if channels[0].name == name then Some(channels[0])
    else
      var r := FindChannel(channels[1..], name);
      assert forall i :: 0 < i < |channels| ==> channels[i] == channels[1..][i - 1];
      r
  }

  /**
   The greeting for a new member, given the member's mention and the server's
   channels. Both channels are looked up by name before anything is sent; when
   the rules channel is missing, reading its mention raises, and when the
   new-members channel is missing, sending to `None` raises, so nothing is sent.
   Otherwise one message goes to the new-members channel, with the member's
   mention in the first placeholder and the rules channel's in the second.
   */
  function MemberJoin(memberMention: string, channels: seq<Channel>): (effects: seq<Effect>)
    ensures effects == [] <==>
              FindChannel(channels, DEFAULT_CHANNEL).None? || FindChannel(channels, RULES_CHANNEL).None?
    ensures effects != [] ==>
              effects == [SendChannel(DEFAULT_CHANNEL,
                GREETING_HEAD + memberMention + GREETING_MID
                + FindChannel(channels, RULES_CHANNEL).value.mention + GREETING_TAIL)]
  {
    var newMembers := FindChannel(channels, DEFAULT_CHANNEL);
    var rules := FindChannel(channels, RULES_CHANNEL);
    if newMembers.None? || rules.None? then []
    else
      GreetingFill(memberMention, rules.value.mention);
      [SendChannel(newMembers.value.name, Format(GREETING, [memberMention, rules.value.mention]))]
  }

  /**
   When both channels exist, the greeting mentions the first channel named
   like the rules channel.
   */
  lemma GreetingMentionsRulesChannel(memberMention: string, channels: seq<Channel>, i: nat)
    requires exists n :: 0 <= n < |channels| && channels[n].name == DEFAULT_CHANNEL
    requires i < |channels| && channels[i].name == RULES_CHANNEL
    requires forall j :: 0 <= j < i ==> channels[j].name != RULES_CHANNEL
    ensures MemberJoin(memberMention, channels)
      == [SendChannel(DEFAULT_CHANNEL,
            GREETING_HEAD + memberMention + GREETING_MID + channels[i].mention + GREETING_TAIL)]
  {
    var found := FindChannel(channels, RULES_CHANNEL);
    assert found.Some?;
    var k :| 0 <= k < |channels| && channels[k] == found.value && channels[k].name == RULES_CHANNEL
             && forall j :: 0 <= j < k ==> channels[j].name != RULES_CHANNEL;
    assert k == i;
  }

  /** The greeting template has two placeholders, filled in order. */
  lemma GreetingFill(x: string, y: string)
    ensures Holes(GREETING) == 2
    ensures Format(GREETING, [x, y]) == GREETING_HEAD + x + GREETING_MID + y + GREETING_TAIL
  {
    GreetingPlain();
    FormatTwo(GREETING_HEAD, GREETING_MID, GREETING_TAIL, x, y);
  }

  /** No fixed part of the greeting holds a brace. */
  lemma GreetingPlain()
    ensures '{' !in GREETING_HEAD && '{' !in GREETING_MID && '{' !in GREETING_TAIL
  {
    // one literal at a time keeps each solver query small
    Plain1(); Plain2(); Plain3(); Plain4(); Plain5(); Plain6(); Plain7();
  }

  lemma Plain1() ensures '{' !in "Welcome to the LinuxServer.io Discord " {}
  lemma Plain2() ensures '{' !in "server " {}
  lemma Plain3() ensures '{' !in "! We kindly ask that " {}
  lemma Plain4() ensures '{' !in "you first read our " {}
  lemma Plain5() ensures '{' !in ". Once you're happy, say `^readrules` " {}
  lemma Plain6() ensures '{' !in "in this channel to get access to all " {}
  lemma Plain7() ensures '{' !in "of our public channels." {}
}
