/** The channel object: every method takes the channel exactly through the step the rules prescribe. */
module ChatChannels {
  import opened Bytes
  import opened Text
  import opened Channels

  class ChatChannel {
    const class_: ChannelClass
    const maxUsers: nat
    var members: seq<Member>
    var operator: Option<AccountId>
    var heirs: seq<AccountId>
    var bans: set<AccountId>
    var seqNo: nat
    var grant: OpGrant
    var persist: bool

    ghost function View(): Channel
      reads this
    {
      Channel(class_, maxUsers, members, operator, heirs, bans, seqNo, grant, persist)
    }

    constructor (class_: ChannelClass, maxUsers: nat)
      ensures View() == New(class_, maxUsers) && Inv(View())
    {
      this.class_, this.maxUsers := class_, maxUsers;
      members, operator, heirs, bans, seqNo := [], None, [], {}, 0;
      grant := if class_.Official? then NoGrant else FirstArrival;
      persist := false;
    }

    method Join(account: AccountId, name: Name, baseFlags: Flags, statstring: seq<byte>)
      returns (out: Outcome)
      modifies this
      ensures (View(), out) == Step(old(View()), Op.Join(account, name, baseFlags, statstring))
    {
      hide IndexOfAccount, BaseName, Lower;
      if account in bans { return Denied(Banned); }
      if IndexOfName(members, name) < |members| { return Denied(AlreadyPresent); }
      if maxUsers != 0 && |members| >= maxUsers { return Denied(Full); }
      var granted := false;
      if operator.None? {
        match grant {
          case NoGrant =>
          case FirstArrival => granted := members == [];
          case NameMatch(opName) => granted := Lower(BaseName(name)) == Lower(opName);
        }
      }
      var flags := if granted then baseFlags | OPERATOR else baseFlags & !OPERATOR;
      if granted { operator := Some(account); }
      members := members + [Member(account, name, flags, statstring)];
      seqNo := seqNo + 1;
      out := Joined(granted, flags);
    }

    /** Take out the session at `i`, and pass the role on if that was the operator's last. */
    method Remove(i: nat) returns (out: LeaveOutcome)
      requires i < |members|
      modifies this
      ensures (View(), out) == RemoveAt(old(View()), i)
    {
      hide IndexOfAccount, Without, FirstPresent;
      var account, ms := members[i].account, members[..i] + members[i + 1..];
      members, seqNo := ms, seqNo + 1;
      var gone := IndexOfAccount(ms, account) >= |ms|;
      if gone { heirs := Without(heirs, account); }
      out := LeaveOutcome(None, ms == [], ms == [] && !class_.Official? && !persist);
      if gone && operator == Some(account) {
        var next := FirstPresent(heirs, ms);
        operator := next;
        if next.Some? {
          Promote(next.value);
          out := out.(newOperator := next);
        }
      }
    }

    /** Flag the new operator's first session and take the account out of the line. */
    method Promote(h: AccountId)
      requires Present(members, h)
      modifies `members, `heirs
      ensures members == WithFlag(old(members), h) && heirs == Without(old(heirs), h)
    {
      hide IndexOfAccount, Without;
      var p := IndexOfAccount(members, h);
      members := members[p := members[p].(flags := members[p].flags | OPERATOR)];
      heirs := Without(heirs, h);
    }

    method Leave(name: Name) returns (out: Outcome)
      modifies this
      ensures (View(), out) == Step(old(View()), Op.Leave(name))
    {
      hide RemoveAt;
      var i := IndexOfName(members, name);
      if i >= |members| { return Left(NO_CHANGE); }
      var left := Remove(i);
      out := Left(left);
    }

    method RemoveAccount(account: AccountId) returns (out: LeaveOutcome)
      modifies this
      ensures (View(), out) == LeaveAccount(old(View()), account)
    {
      hide RemoveAt;
      var i := IndexOfAccount(members, account);
      if i >= |members| { return NO_CHANGE; }
      out := Remove(i);
    }

    method Designate(actor: AccountId, heir: AccountId) returns (out: Outcome)
      modifies `heirs, `seqNo
      ensures (View(), out) == Step(old(View()), Op.Designate(actor, heir))
    {
      hide Without;
      if operator != Some(actor) { return Refused(NotOperator); }
      if actor == heir { return Refused(CannotTargetSelf); }
      if IndexOfAccount(members, heir) >= |members| { return Refused(NotPresent); }
      heirs := Without(heirs, heir) + [heir];
      seqNo := seqNo + 1;
      out := Heir(heir);
    }

    method DesignateByName(actor: AccountId, name: Name) returns (out: Outcome)
      modifies `heirs, `seqNo
      ensures (View(), out) == Step(old(View()), Op.DesignateByName(actor, name))
    {
      if operator != Some(actor) { return Refused(NotOperator); }
      var i := IndexOfName(members, name);
      if i >= |members| { return Refused(NotPresent); }
      var heir := members[i].account;
      if heir == actor { return Refused(CannotTargetSelf); }
      if heir !in heirs {
        heirs := heirs + [heir];
        seqNo := seqNo + 1;
      }
      out := Heir(heir);
    }

    method Kick(actor: AccountId, target: AccountId) returns (out: Outcome)
      modifies this
      ensures (View(), out) == Step(old(View()), Op.Kick(actor, target))
    {
      hide RemoveAt;
      if operator != Some(actor) { return Refused(NotOperator); }
      if actor == target { return Refused(CannotTargetSelf); }
      if IndexOfAccount(members, target) >= |members| { return Refused(NotPresent); }
      var left := RemoveAccount(target);
      out := Left(left);
    }

    method KickByName(actor: AccountId, name: Name) returns (out: Outcome)
      modifies this
      ensures (View(), out) == Step(old(View()), Op.KickByName(actor, name))
    {
      hide RemoveAt;
      if operator != Some(actor) { return Refused(NotOperator); }
      var i := IndexOfName(members, name);
      if i >= |members| { return Refused(NotPresent); }
      if members[i].account == actor { return Refused(CannotTargetSelf); }
      var left := Remove(i);
      out := Left(left);
    }

    method Ban(actor: AccountId, target: AccountId) returns (out: Outcome)
      modifies this
      ensures (View(), out) == Step(old(View()), Op.Ban(actor, target))
    {
      hide RemoveAt;
      if operator != Some(actor) { return Refused(NotOperator); }
      if actor == target { return Refused(CannotTargetSelf); }
      bans := bans + {target};
      var left := RemoveAccount(target);
      out := BannedAccount(target, left);
    }

    method BanByName(actor: AccountId, name: Name) returns (out: Outcome)
      modifies this
      ensures (View(), out) == Step(old(View()), Op.BanByName(actor, name))
    {
      hide RemoveAt;
      if operator != Some(actor) { return Refused(NotOperator); }
      var i := IndexOfName(members, name);
      if i >= |members| { return Refused(NotPresent); }
      var account := members[i].account;
      if account == actor { return Refused(CannotTargetSelf); }
      bans := bans + {account};
      var left := Remove(i);
      out := BannedAccount(account, left);
    }

    method Unban(actor: AccountId, target: AccountId) returns (out: Outcome)
      modifies `bans
      ensures (View(), out) == Step(old(View()), Op.Unban(actor, target))
    {
      if operator != Some(actor) { return Refused(NotOperator); }
      out := Lifted(target in bans);
      bans := bans - {target};
    }
  }
}
