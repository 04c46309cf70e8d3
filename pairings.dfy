/**
 * The pairing engine: issuing a pairing code, pairing with the owner of a
 * code, and unpairing. Each endpoint checks its guards in a fixed order; a
 * rejection leaves the table as it was.
 */
module Pairings {
  import opened Wrappers
  import opened Http
  import opened Users

  // ---------------------------------------------------------------------------
  // generate_code
  // ---------------------------------------------------------------------------

  const CodeLength: nat := 6

  const AsciiUppercase: string := "ABCDEFGHIJKLMNOPQRSTUVWXYZ"
  const Digits: string := "0123456789"

  /** `string.ascii_uppercase + string.digits`. */
  const CodeAlphabet: string := AsciiUppercase + Digits

  predicate IsCodeChar(c: char) {
    ('A' <= c <= 'Z') || ('0' <= c <= '9')
  }

  /** Every character of the alphabet is an upper-case letter or a digit. */
  lemma AlphabetIsCodeChars()
    ensures |CodeAlphabet| == 36
    ensures forall j :: 0 <= j < |CodeAlphabet| ==> IsCodeChar(CodeAlphabet[j])
  {
    assert forall j :: 0 <= j < |AsciiUppercase| ==> 'A' <= AsciiUppercase[j] <= 'Z';
    assert forall j :: 0 <= j < |Digits| ==> '0' <= Digits[j] <= '9';
    forall j | 0 <= j < |CodeAlphabet|
      ensures IsCodeChar(CodeAlphabet[j])
    {
      if j < |AsciiUppercase| {
        assert CodeAlphabet[j] == AsciiUppercase[j];
      } else {
        assert CodeAlphabet[j] == Digits[j - |AsciiUppercase|];
      }
    }
  }

  /** What `secrets.choice(chars)` can pick: indices into the alphabet. */
  predicate AlphabetIndices(d: seq<int>) {
    forall i :: 0 <= i < |d| ==> 0 <= d[i] < |CodeAlphabet|
  }

  /** A draw: one random index into the alphabet per character of the code. */
  predicate IsDraw(d: seq<int>) {
    |d| == CodeLength && AlphabetIndices(d)
  }

  /** A supply of draws, one per call of `generate_code`. */
  predicate AreDraws(draws: seq<seq<int>>) {
    forall i {:trigger draws[i]} :: 0 <= i < |draws| ==> IsDraw(draws[i])
  }

  /**
   * `generate_code()`: the character for each index drawn by `secrets.choice`.
   * Every character is an upper-case ASCII letter or a decimal digit.
   */
  function GenerateCode(draw: seq<int>): (code: string)
    requires AlphabetIndices(draw)
    ensures |code| == |draw|
    ensures forall i :: 0 <= i < |code| ==> IsCodeChar(code[i])
  {
    AlphabetIsCodeChars();
    seq(|draw|, i requires 0 <= i < |draw| => CodeAlphabet[draw[i]])
  }

  /** The alphabet index of a code character. */
  function CharIndex(c: char): (i: int)
    requires IsCodeChar(c)
    ensures 0 <= i < |CodeAlphabet| && CodeAlphabet[i] == c
  {
    if 'A' <= c <= 'Z' then c as int - 'A' as int else 26 + (c as int - '0' as int)
  }

  /**
   * Every string of the right length over `A-Z0-9` is a possible code: the
   * alphabet contains exactly those characters.
   */
  lemma EveryCodeIsReachable(code: string)
    requires |code| == CodeLength && forall i :: 0 <= i < |code| ==> IsCodeChar(code[i])
    ensures var d := seq(|code|, i requires 0 <= i < |code| => CharIndex(code[i]));
      IsDraw(d) && GenerateCode(d) == code
  {
  }

  /**
   * The retry loop as a function of the draws: the first generated code that
   * nobody holds yet.
   */
  function FirstFreeCode(t: Table, draws: seq<seq<int>>): (r: Option<string>)
    requires AreDraws(draws)
    ensures r.Some? ==> !CodeInUse(t, r.value) && |r.value| == CodeLength
    ensures r.Some? ==> forall i :: 0 <= i < |r.value| ==> IsCodeChar(r.value[i])
    ensures r.None? <==> forall i :: 0 <= i < |draws| ==> CodeInUse(t, GenerateCode(draws[i]))
    ensures r.Some? ==>
      exists j :: (0 <= j < |draws| && r.value == GenerateCode(draws[j]) &&
                   forall i :: 0 <= i < j ==> CodeInUse(t, GenerateCode(draws[i])))
  {
    if draws == [] then None
    else if !CodeInUse(t, GenerateCode(draws[0])) then Some(GenerateCode(draws[0]))
    else
      var r := FirstFreeCode(t, draws[1..]);
      assert forall i :: 1 <= i < |draws| ==> draws[i] == draws[1..][i - 1];
      r
  }

  // ---------------------------------------------------------------------------
  // The new tables each endpoint commits
  // ---------------------------------------------------------------------------

  /** The caller's record gets the new code; any earlier code is replaced. */
  function WithCode(t: Table, id: int, code: string): (r: Table)
    requires id in t
    ensures r.Keys == t.Keys
    ensures r[id].pairingCode == Some(code)
    ensures r[id] == t[id].(pairingCode := r[id].pairingCode)
    ensures forall k :: k in t && k != id ==> r[k] == t[k]
  {
    t[id := t[id].(pairingCode := Some(code))]
  }

  /** `a` and `b` name each other as partner, and both codes are cleared. */
  function Paired(t: Table, a: int, b: int): (r: Table)
    requires a in t && b in t
    ensures r.Keys == t.Keys
    ensures r[a].partnerId == Some(b) && r[b].partnerId == Some(a)
    ensures r[a].pairingCode.None? && r[b].pairingCode.None?
    ensures r[a] == t[a].(partnerId := r[a].partnerId, pairingCode := None)
    ensures r[b] == t[b].(partnerId := r[b].partnerId, pairingCode := None)
    ensures forall k :: k in t && k != a && k != b ==> r[k] == t[k]
  {
    t[a := t[a].(partnerId := Some(b), pairingCode := None)]
     [b := t[b].(partnerId := Some(a), pairingCode := None)]
  }

  /** `a`'s partner link is cleared, and so is its partner's if that record exists. */
  function Unpaired(t: Table, a: int): (r: Table)
    requires a in t && t[a].partnerId.Some?
    ensures r.Keys == t.Keys
    ensures r[a] == t[a].(partnerId := None)
    ensures var p := t[a].partnerId.value; p in t && p != a ==> r[p] == t[p].(partnerId := None)
    ensures forall k :: k in t && k != a && k != t[a].partnerId.value ==> r[k] == t[k]
  {
    var p := t[a].partnerId.value;
    var t1 := if p in t then t[p := t[p].(partnerId := None)] else t;
    t1[a := t1[a].(partnerId := None)]
  }

  /** Giving an unpaired user a code nobody holds keeps the pairing invariant. */
  lemma WithCodeKeepsInvariant(t: Table, id: int, code: string)
    requires WellFormed(t) && PairingInvariant(t) && id in t
    requires !Truthy(t[id].partnerId) && !CodeInUse(t, code)
    ensures WellFormed(WithCode(t, id, code)) && PairingInvariant(WithCode(t, id, code))
  {
    var t' := WithCode(t, id, code);
    assert t[id].partnerId.None?;
    forall a, b | a in t' && b in t' && t'[a].pairingCode.Some? && t'[a].pairingCode == t'[b].pairingCode
      ensures a == b
    {
      if a != id && b != id {
        assert t[a].pairingCode == t[b].pairingCode;
      }
    }
  }

  /** Linking two distinct unpaired users keeps pairing symmetric. */
  lemma PairedStaysSymmetric(t: Table, a: int, b: int)
    requires PairingSymmetric(t) && a in t && b in t && a != b
    requires t[a].partnerId.None? && t[b].partnerId.None?
    ensures PairingSymmetric(Paired(t, a, b))
  {
    var t' := Paired(t, a, b);
    forall x | x in t' && t'[x].partnerId.Some?
      ensures t'[x].partnerId.value in t' && t'[t'[x].partnerId.value].partnerId == Some(x)
    {
      if x != a && x != b {
        var p := t[x].partnerId.value;
        assert t[p].partnerId == Some(x);
        assert p != a && p != b;
      }
    }
  }

  /** Linking two distinct unpaired users keeps the pairing invariant. */
  lemma PairedKeepsInvariant(t: Table, a: int, b: int)
    requires WellFormed(t) && PairingInvariant(t) && a in t && b in t && a != b
    requires !Truthy(t[a].partnerId) && !Truthy(t[b].partnerId)
    ensures WellFormed(Paired(t, a, b)) && PairingInvariant(Paired(t, a, b))
  {
    var t' := Paired(t, a, b);
    assert t[a].partnerId.None? && t[b].partnerId.None?;
    PairedStaysSymmetric(t, a, b);
    forall x, y | x in t' && y in t' && t'[x].pairingCode.Some? && t'[x].pairingCode == t'[y].pairingCode
      ensures x == y
    {
      assert t[x].pairingCode == t[y].pairingCode;
    }
  }

  /** Unpairing a paired user keeps pairing symmetric. */
  lemma UnpairedStaysSymmetric(t: Table, a: int)
    requires PairingSymmetric(t) && NoSelfPair(t) && a in t && t[a].partnerId.Some?
    ensures PairingSymmetric(Unpaired(t, a))
  {
    var p := t[a].partnerId.value;
    var t' := Unpaired(t, a);
    assert p in t && t[p].partnerId == Some(a) && p != a;
    forall x | x in t' && t'[x].partnerId.Some?
      ensures t'[x].partnerId.value in t' && t'[t'[x].partnerId.value].partnerId == Some(x)
    {
      var q := t[x].partnerId.value;
      assert t[q].partnerId == Some(x);
      assert q != a && q != p;
    }
  }

  /** Unpairing a paired user keeps the table well formed and keeps the pairing invariant. */
  lemma UnpairedKeepsInvariant(t: Table, a: int)
    requires WellFormed(t) && PairingInvariant(t) && a in t && Truthy(t[a].partnerId)
    ensures WellFormed(Unpaired(t, a)) && PairingInvariant(Unpaired(t, a))
  {
    var t' := Unpaired(t, a);
    UnpairedStaysSymmetric(t, a);
    forall x, y | x in t' && y in t' && t'[x].pairingCode.Some? && t'[x].pairingCode == t'[y].pairingCode
      ensures x == y
    {
      assert t[x].pairingCode == t[y].pairingCode;
    }
  }

  /** After unpairing, nobody names the caller or the former partner as partner. */
  lemma UnpairedReleasesBoth(t: Table, a: int)
    requires PairingInvariant(t) && a in t && t[a].partnerId.Some?
    ensures forall x :: x in Unpaired(t, a) ==>
      Unpaired(t, a)[x].partnerId != Some(a) && Unpaired(t, a)[x].partnerId != t[a].partnerId
  {
    var p := t[a].partnerId.value;
    var t' := Unpaired(t, a);
    forall x | x in t'
      ensures t'[x].partnerId != Some(a) && t'[x].partnerId != Some(p)
    {
      if x != a && x != p && t[x].partnerId.Some? {
        assert t[t[x].partnerId.value].partnerId == Some(x);
      }
    }
  }

  /**
   * Unpairing undoes a pairing of two previously unpaired users, except that
   * their pairing codes stay cleared.
   */
  lemma UnpairUndoesPair(t: Table, a: int, b: int)
    requires a in t && b in t && a != b
    requires t[a].partnerId.None? && t[b].partnerId.None?
    ensures Unpaired(Paired(t, a, b), a).Keys == t.Keys
    ensures forall x :: x in t ==>
      Unpaired(Paired(t, a, b), a)[x] ==
        if x == a || x == b then t[x].(pairingCode := None) else t[x]
  {
  }

  // ---------------------------------------------------------------------------
  // The endpoints
  // ---------------------------------------------------------------------------

  const CodeWhilePairedError := HttpError(400, "User is already paired")
  const CallerPairedError := HttpError(400, "You are already paired")
  const InvalidCodeError := HttpError(404, "Invalid pairing code")
  const SelfPairError := HttpError(400, "Cannot pair with yourself")
  const TargetPairedError := HttpError(400, "Target user is already paired")
  const NotPairedError := HttpError(400, "Not paired")

  /**
   * Why `generate_pairing_code` returns no code: a rejection, or (outside the
   * source, whose loop draws without end) every supplied draw collided.
   */
  datatype CodeError = Rejected(error: HttpError) | DrawsExhausted

  /** The partner payload of a successful pairing. */
  datatype PartnerInfo = PartnerInfo(
    id: int, email: string, fullName: Option<string>, picture: Option<string>, partnerId: Option<int>)

  datatype PairingResponse = PairingResponse(message: string, partner: PartnerInfo)

  /** The partner fields the response reports: the owner's id, email, name, picture and partner. */
  function PartnerInfoOf(u: User): (p: PartnerInfo)
    ensures p.id == u.id && p.email == u.email && p.fullName == u.fullName
    ensures p.picture == u.picture && p.partnerId == u.partnerId
  {
    PartnerInfo(u.id, u.email, u.fullName, u.picture, u.partnerId)
  }

  /**
   * `generate_pairing_code` for the authenticated user `callerId`. `draws`
   * supplies, in order, the random indices each call of `generate_code` would
   * draw.
   */
  method GeneratePairingCode(table: UserTable, callerId: int, draws: seq<seq<int>>)
    returns (r: Result<string, CodeError>)
    requires table.Valid() && callerId in table.users
    requires AreDraws(draws)
    modifies table
    ensures table.Valid()
    ensures r.Err? ==> table.users == old(table.users)
    ensures r == Err(Rejected(CodeWhilePairedError)) <==> Truthy(old(table.users)[callerId].partnerId)
    ensures !Truthy(old(table.users)[callerId].partnerId) ==>
      match FirstFreeCode(old(table.users), draws)
      case None => r == Err(DrawsExhausted)
      case Some(code) => r == Ok(code) && table.users == WithCode(old(table.users), callerId, code)
    ensures r.Ok? ==> !CodeInUse(old(table.users), r.value) && table.users[callerId].pairingCode == Some(r.value)
    ensures old(PairingInvariant(table.users)) ==> PairingInvariant(table.users)
  {
    var caller := table.users[callerId];
    if Truthy(caller.partnerId) {
      return Err(Rejected(CodeWhilePairedError));
    }
    var i := 0;
    while i < |draws| && CodeInUse(table.users, GenerateCode(draws[i]))
      invariant 0 <= i <= |draws|
      invariant FirstFreeCode(table.users, draws[i..]) == FirstFreeCode(table.users, draws)
    {
      assert draws[i..][1..] == draws[i + 1..];
      i := i + 1;
    }
    if i == |draws| {
      return Err(DrawsExhausted);
    }
    var code := GenerateCode(draws[i]);
    if PairingInvariant(table.users) {
      WithCodeKeepsInvariant(table.users, callerId, code);
    }
    table.users := table.users[callerId := caller.(pairingCode := Some(code))];
    r := Ok(code);
  }

  /**
   * `pair_users`: the authenticated user `callerId` pairs with the owner of
   * `code`. Guards in order: caller already paired, no such code, own code,
   * target already paired.
   */
  method PairUsers(table: UserTable, callerId: int, code: string)
    returns (r: Result<PairingResponse, HttpError>)
    requires table.Valid() && callerId in table.users
    modifies table
    ensures table.Valid()
    ensures r.Err? ==> table.users == old(table.users)
    ensures r.Err? ==> r.error in {CallerPairedError, InvalidCodeError, SelfPairError, TargetPairedError}
    ensures r == Err(CallerPairedError) <==> Truthy(old(table.users)[callerId].partnerId)
    ensures r == Err(InvalidCodeError) <==>
      !Truthy(old(table.users)[callerId].partnerId) && !CodeInUse(old(table.users), code)
    ensures r == Err(SelfPairError) ==>
      !Truthy(old(table.users)[callerId].partnerId) && old(table.users)[callerId].pairingCode == Some(code)
    ensures r == Err(TargetPairedError) ==>
      && !Truthy(old(table.users)[callerId].partnerId)
      && exists k :: k in old(table.users) && k != callerId &&
           old(table.users)[k].pairingCode == Some(code) && Truthy(old(table.users)[k].partnerId)
    ensures r.Ok? ==>
      var k := r.value.partner.id;
      && !Truthy(old(table.users)[callerId].partnerId)
      && k in old(table.users) && k != callerId
      && old(table.users)[k].pairingCode == Some(code)
      && !Truthy(old(table.users)[k].partnerId)
      && table.users == Paired(old(table.users), callerId, k)
      && r.value == PairingResponse("Paired successfully", PartnerInfoOf(table.users[k]))
      && r.value.partner.email == old(table.users)[k].email
      && r.value.partner.partnerId == Some(callerId)
    ensures CodesUnique(old(table.users)) && !Truthy(old(table.users)[callerId].partnerId) ==>
      (r == Err(SelfPairError) <==> old(table.users)[callerId].pairingCode == Some(code))
    ensures old(PairingInvariant(table.users)) ==> PairingInvariant(table.users)
  {
    var caller := table.users[callerId];
    if Truthy(caller.partnerId) {
      return Err(CallerPairedError);
    }
    if !CodeInUse(table.users, code) {
      return Err(InvalidCodeError);
    }
    var targetId :| targetId in table.users && table.users[targetId].pairingCode == Some(code);
    var target := table.users[targetId];
    if target.id == caller.id {
      return Err(SelfPairError);
    }
    if Truthy(target.partnerId) {
      return Err(TargetPairedError);
    }
    if PairingInvariant(table.users) {
      PairedKeepsInvariant(table.users, callerId, targetId);
    }
    table.users := table.users[callerId := caller.(partnerId := Some(target.id), pairingCode := None)];
    table.users := table.users[targetId := target.(partnerId := Some(caller.id), pairingCode := None)];
    r := Ok(PairingResponse("Paired successfully", PartnerInfoOf(table.users[targetId])));
  }

  /**
   * `unpair_users` for the authenticated user `callerId`: rejected when the
   * caller has no partner; otherwise both partner links are cleared (the
   * partner's only if that record exists). Pairing codes are untouched.
   */
  method UnpairUsers(table: UserTable, callerId: int) returns (r: Result<string, HttpError>)
    requires table.Valid() && callerId in table.users
    modifies table
    ensures table.Valid()
    ensures r == Err(NotPairedError) <==> !Truthy(old(table.users)[callerId].partnerId)
    ensures r.Err? ==> r == Err(NotPairedError)
    ensures Truthy(old(table.users)[callerId].partnerId) ==> r.Ok?
    ensures r.Err? ==> table.users == old(table.users)
    ensures r.Ok? ==> r.value == "Unpaired successfully" && table.users == Unpaired(old(table.users), callerId)
    ensures r.Ok? ==> table.users[callerId].partnerId.None?
    ensures table.users.Keys == old(table.users).Keys
    ensures forall k :: k in table.users ==> table.users[k].pairingCode == old(table.users)[k].pairingCode
    ensures old(PairingInvariant(table.users)) ==> PairingInvariant(table.users)
  {
    var caller := table.users[callerId];
    if !Truthy(caller.partnerId) {
      return Err(NotPairedError);
    }
    var partnerId := caller.partnerId.value;
    if PairingInvariant(table.users) {
      UnpairedKeepsInvariant(table.users, callerId);
    }
    if partnerId in table.users {
      var partner := table.users[partnerId];
      table.users := table.users[partnerId := partner.(partnerId := None)];
    }
    table.users := table.users[callerId := table.users[callerId].(partnerId := None)];
    r := Ok("Unpaired successfully");
  }
}
