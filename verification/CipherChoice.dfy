/** How a TLS server picks the cipher: in one pass over the preferred list, whose ciphers may form groups of equal
    preference, against the list of ciphers the other side allows. */
module CipherChoice {
  import opened Bytes

  /** A cipher with the bits of its key exchange and authentication algorithms. */
  datatype Cipher = Cipher(id: nat, minVersion: nat, maxVersion: nat, mkey: set<nat>, auth: set<nat>)

  datatype Config = Config(version: nat, maskK: set<nat>, maskA: set<nat>)

  predicate Compatible(c: Cipher, config: Config) {
    c.minVersion <= config.version <= c.maxVersion && c.mkey * config.maskK != {} && c.auth * config.maskA != {}
  }

  /** The first place of a cipher in a list; its length when it is not there. */
  function Rank(list: seq<Cipher>, c: Cipher): (r: nat)
    ensures r <= |list| && (r < |list| ==> list[r] == c)
    ensures c !in list[..r]
    ensures r == |list| ==> c !in list
  {
    if |list| == 0 || list[0] == c then 0 else 1 + Rank(list[1..], c)
  }

  predicate Acceptable(prio: seq<Cipher>, allow: seq<Cipher>, config: Config, i: nat)
    requires i < |prio|
  {
    Compatible(prio[i], config) && Rank(allow, prio[i]) < |allow|
  }

  /** A cipher that both sides list, for the version that is spoken, with a key exchange and an authentication that the server
      can do. */
  ghost predicate Usable(server: seq<Cipher>, client: seq<Cipher>, config: Config, c: Cipher) {
    && c in server && c in client
    && c.minVersion <= config.version && config.version <= c.maxVersion
    && (exists k :: k in c.mkey && k in config.maskK)
    && (exists a :: a in c.auth && a in config.maskA)
  }

  lemma AcceptableIff(prio: seq<Cipher>, allow: seq<Cipher>, config: Config, i: nat)
    requires i < |prio|
    ensures Acceptable(prio, allow, config, i) <==> Usable(prio, allow, config, prio[i])
    ensures Acceptable(prio, allow, config, i) <==> Usable(allow, prio, config, prio[i])
  {
    var c := prio[i];
    if c.mkey * config.maskK != {} {
      var k :| k in c.mkey * config.maskK;
      assert k in c.mkey && k in config.maskK;
    }
    if c.auth * config.maskA != {} {
      var a :| a in c.auth * config.maskA;
      assert a in c.auth && a in config.maskA;
    }
    if k :| k in c.mkey && k in config.maskK {
      assert k in c.mkey * config.maskK;
    }
    if a :| a in c.auth && a in config.maskA {
      assert a in c.auth * config.maskA;
    }
    if Rank(allow, c) < |allow| {
      assert allow[Rank(allow, c)] == c;
    }
  }

  /** The last element of the group that element i is in; the end of the list if the group is never closed. A set flag
      says that the group goes on behind the element; without flags every cipher is a group of its own. */
  function GroupEnd(flags: Option<seq<bool>>, n: nat, i: nat): (e: nat)
    requires i < n && (flags.Some? ==> |flags.value| == n)
    ensures i <= e <= n
    decreases n - i
  {
    if flags.None? || !flags.value[i] then i
    else if i + 1 == n then n
    else GroupEnd(flags, n, i + 1)
  }

  /** A group goes on as long as the flags are set. */
  lemma {:induction false} GroupIsRun(flags: seq<bool>, i: nat)
    requires i < |flags|
    ensures var e := GroupEnd(Some(flags), |flags|, i);
            (forall k :: i <= k < e ==> flags[k]) && (e < |flags| ==> !flags[e])
    decreases |flags| - i
  {
    if flags[i] && i + 1 < |flags| {
      GroupIsRun(flags, i + 1);
    }
  }

  /** Later elements are in the same group or in a later one. */
  lemma {:induction false} GroupEndMeaning(flags: Option<seq<bool>>, n: nat, i: nat, j: nat)
    requires i < n && (flags.Some? ==> |flags.value| == n)
    requires i <= j <= n
    ensures j < n && j <= GroupEnd(flags, n, i) ==> GroupEnd(flags, n, j) == GroupEnd(flags, n, i)
    ensures j < n && j > GroupEnd(flags, n, i) ==> GroupEnd(flags, n, j) > GroupEnd(flags, n, i)
    decreases n - i
  {
    if i + 1 < n && i < j && flags.Some? && flags.value[i] {
      GroupEndMeaning(flags, n, i + 1, j);
    }
  }

  /** Element i is at least as good a choice as element j: in an earlier group, or in the same one and no later in the
      other side's list. */
  predicate AtLeastAsGood(prio: seq<Cipher>, flags: Option<seq<bool>>, allow: seq<Cipher>, i: nat, j: nat)
    requires i < |prio| && j < |prio| && (flags.Some? ==> |flags.value| == |prio|)
  {
    var a, b := GroupEnd(flags, |prio|, i), GroupEnd(flags, |prio|, j);
    a < b || (a == b && Rank(allow, prio[i]) <= Rank(allow, prio[j]))
  }

  /** An acceptable element of a group that is closed. */
  predicate Eligible(prio: seq<Cipher>, flags: Option<seq<bool>>, allow: seq<Cipher>, config: Config, i: nat)
    requires i < |prio| && (flags.Some? ==> |flags.value| == |prio|)
  {
    Acceptable(prio, allow, config, i) && GroupEnd(flags, |prio|, i) < |prio|
  }

  ghost predicate Best(prio: seq<Cipher>, flags: Option<seq<bool>>, allow: seq<Cipher>, config: Config, i: nat)
    requires i < |prio| && (flags.Some? ==> |flags.value| == |prio|)
  {
    && Eligible(prio, flags, allow, config, i)
    && forall j :: 0 <= j < |prio| && Eligible(prio, flags, allow, config, j) ==> AtLeastAsGood(prio, flags, allow, i, j)
  }

  /** The one pass over the preferred list. It returns the cipher of the earliest closed group with an acceptable one
      that comes first in the allow list, and nothing exactly when no closed group has an acceptable cipher. */
  method Choose(prio: seq<Cipher>, flags: Option<seq<bool>>, allow: seq<Cipher>, config: Config)
    returns (r: Option<Cipher>)
    requires flags.Some? ==> |flags.value| == |prio|
    ensures r.Some? ==> exists i :: 0 <= i < |prio| && Best(prio, flags, allow, config, i) && r.value == prio[i]
    ensures r.None? ==> forall i :: 0 <= i < |prio| ==> !Eligible(prio, flags, allow, config, i)
  {
    hide Compatible, Rank, GroupEnd;
    var groupMin := -1;
    ghost var best := 0;
    for i := 0 to |prio|
      invariant groupMin == -1 ==> forall j :: 0 <= j < i ==> !Acceptable(prio, allow, config, j)
      invariant groupMin != -1 ==>
                  && flags.Some? && 0 <= groupMin < |allow| && best < i && Acceptable(prio, allow, config, best)
                  && groupMin == Rank(allow, prio[best])
                  && GroupEnd(flags, |prio|, best) >= i
      invariant groupMin != -1 ==>
                  forall j :: 0 <= j < i && Acceptable(prio, allow, config, j) ==>
                    GroupEnd(flags, |prio|, j) == GroupEnd(flags, |prio|, best) && groupMin <= Rank(allow, prio[j])
    {
      var c := prio[i];
      GroupHere(flags, |prio|, i);
      if groupMin != -1 {
        GroupEndMeaning(flags, |prio|, best, i);
      }
      var cipherIndex := Rank(allow, c);
      if Compatible(c, config) && cipherIndex < |allow| {
        if flags.Some? && flags.value[i] {
          if groupMin == -1 || groupMin > cipherIndex {
            groupMin := cipherIndex;
            best := i;
          }
        } else {
          if groupMin != -1 && groupMin < cipherIndex {
            cipherIndex := groupMin;
          } else {
            best := i;
          }
          IsBest(prio, flags, allow, config, best, i);
          return Some(allow[cipherIndex]);
        }
      }
      if flags.Some? && !flags.value[i] && groupMin != -1 {
        IsBest(prio, flags, allow, config, best, i);
        return Some(allow[groupMin]);
      }
    }
    // What is left is in a group that the flags never close.
    if groupMin != -1 {
      forall j | 0 <= j < |prio| ensures !Eligible(prio, flags, allow, config, j) {
      }
    }
    return None;
  }

  lemma GroupHere(flags: Option<seq<bool>>, n: nat, i: nat)
    requires i < n && (flags.Some? ==> |flags.value| == n)
    ensures flags.Some? && flags.value[i] ==> GroupEnd(flags, n, i) > i
    ensures flags.Some? && !flags.value[i] ==> GroupEnd(flags, n, i) == i
    ensures flags.None? ==> GroupEnd(flags, n, i) == i
  {
  }

  lemma IsBest(prio: seq<Cipher>, flags: Option<seq<bool>>, allow: seq<Cipher>, config: Config, best: nat, i: nat)
    requires best <= i < |prio| && (flags.Some? ==> |flags.value| == |prio|)
    requires Acceptable(prio, allow, config, best) && GroupEnd(flags, |prio|, best) == i
    requires forall j :: 0 <= j <= i && Acceptable(prio, allow, config, j) ==>
               GroupEnd(flags, |prio|, j) == i && Rank(allow, prio[best]) <= Rank(allow, prio[j])
    ensures Best(prio, flags, allow, config, best)
  {
    hide Compatible, Rank, GroupEnd;
    forall j | 0 <= j < |prio| && Eligible(prio, flags, allow, config, j)
      ensures AtLeastAsGood(prio, flags, allow, best, j)
    {
      if j > i {
        GroupEndMeaning(flags, |prio|, best, j);
      }
    }
  }

  /** All groups are closed when the last flag is not set. */
  predicate WellFormed(prio: seq<Cipher>, flags: Option<seq<bool>>) {
    flags.Some? ==> |flags.value| == |prio| && (|prio| > 0 ==> !flags.value[|prio| - 1])
  }

  lemma {:induction false} AllClosed(prio: seq<Cipher>, flags: Option<seq<bool>>, i: nat)
    requires WellFormed(prio, flags) && i < |prio|
    ensures GroupEnd(flags, |prio|, i) < |prio|
    decreases |prio| - i
  {
    if i + 1 < |prio| {
      AllClosed(prio, flags, i + 1);
    }
  }

  /** With well-formed flags, being eligible is being acceptable; with a last flag that is set, the acceptable ciphers of
      the last group are passed over. */
  lemma EligibleIff(prio: seq<Cipher>, flags: Option<seq<bool>>, allow: seq<Cipher>, config: Config, i: nat)
    requires i < |prio| && (flags.Some? ==> |flags.value| == |prio|)
    ensures WellFormed(prio, flags) ==>
              (Eligible(prio, flags, allow, config, i) <==> Acceptable(prio, allow, config, i))
    ensures !WellFormed(prio, flags) && i == |prio| - 1 ==> !Eligible(prio, flags, allow, config, i)
  {
    hide Compatible, Rank;
    if WellFormed(prio, flags) {
      AllClosed(prio, flags, i);
    }
  }

  /** Any two best choices are the same cipher. */
  lemma BestIsUnique(prio: seq<Cipher>, flags: Option<seq<bool>>, allow: seq<Cipher>, config: Config, i: nat, j: nat)
    requires i < |prio| && j < |prio| && (flags.Some? ==> |flags.value| == |prio|)
    requires Best(prio, flags, allow, config, i) && Best(prio, flags, allow, config, j)
    ensures prio[i] == prio[j]
  {
    hide Compatible, GroupEnd;
    assert AtLeastAsGood(prio, flags, allow, i, j) && AtLeastAsGood(prio, flags, allow, j, i);
    assert allow[Rank(allow, prio[i])] == prio[i] && allow[Rank(allow, prio[j])] == prio[j];
  }

  predicate FirstAcceptable(prio: seq<Cipher>, allow: seq<Cipher>, config: Config, i: nat)
    requires i < |prio|
  {
    Acceptable(prio, allow, config, i) && forall j :: 0 <= j < i ==> !Acceptable(prio, allow, config, j)
  }

  /** Without groups the best choice is the first acceptable cipher of the preferred list. */
  lemma BestWithoutGroups(prio: seq<Cipher>, allow: seq<Cipher>, config: Config, i: nat)
    requires i < |prio|
    ensures Best(prio, None, allow, config, i) <==>
            FirstAcceptable(prio, allow, config, i)
  {
    hide Compatible, Rank;
    forall j | 0 <= j < |prio| ensures GroupEnd(None, |prio|, j) == j {
    }
    if Best(prio, None, allow, config, i) {
      forall j | 0 <= j < i ensures !Acceptable(prio, allow, config, j) {
        assert !AtLeastAsGood(prio, None, allow, i, j);
      }
    }
  }

  lemma BothSidesUsable(server: seq<Cipher>, client: seq<Cipher>, config: Config)
    ensures forall i :: 0 <= i < |server| ==> (Acceptable(server, client, config, i) <==> Usable(server, client, config, server[i]))
    ensures forall i :: 0 <= i < |client| ==> (Acceptable(client, server, config, i) <==> Usable(server, client, config, client[i]))
    ensures forall c :: Usable(server, client, config, c) ==> c in server && c in client
    ensures forall i, flags: Option<seq<bool>> ::
              0 <= i < |server| && (flags.Some? ==> |flags.value| == |server|) && Best(server, flags, client, config, i) ==>
                Acceptable(server, client, config, i)
    ensures forall i :: 0 <= i < |client| && FirstAcceptable(client, server, config, i) ==> Acceptable(client, server, config, i)
  {
    hide Acceptable, Usable;
    forall i | 0 <= i < |server|
      ensures Acceptable(server, client, config, i) <==> Usable(server, client, config, server[i])
    {
      AcceptableIff(server, client, config, i);
    }
    forall i | 0 <= i < |client|
      ensures Acceptable(client, server, config, i) <==> Usable(server, client, config, client[i])
    {
      AcceptableIff(client, server, config, i);
    }
    forall c | Usable(server, client, config, c)
      ensures c in server && c in client
    {
      UsableIsListed(server, client, config, c);
    }
  }

  lemma UsableIsListed(server: seq<Cipher>, client: seq<Cipher>, config: Config, c: Cipher)
    requires Usable(server, client, config, c)
    ensures c in server && c in client
  {
  }

  /** Either the server's list with its groups is preferred, or the client's. */
  method ChooseCipher(serverPreference: bool, server: seq<Cipher>, groups: seq<bool>, client: seq<Cipher>, config: Config)
    returns (r: Option<Cipher>)
    requires |groups| == |server| && (|server| > 0 ==> !groups[|server| - 1])
    ensures serverPreference ==>
              if r.Some? then exists i :: 0 <= i < |server| && Best(server, Some(groups), client, config, i) && r.value == server[i]
              else forall i :: 0 <= i < |server| ==> !Acceptable(server, client, config, i)
    ensures !serverPreference ==>
              if r.Some? then exists i :: 0 <= i < |client| && FirstAcceptable(client, server, config, i) && r.value == client[i]
              else forall i :: 0 <= i < |client| ==> !Acceptable(client, server, config, i)
    // Either way it is a cipher both sides can use, and there is none only if there is no such cipher.
    ensures r.Some? ==> Usable(server, client, config, r.value)
    ensures r.None? ==> forall c :: c in server ==> !Usable(server, client, config, c)
  {
    hide Best, Eligible, Acceptable, FirstAcceptable, Usable;
    BothSidesUsable(server, client, config);
    if serverPreference {
      r := Choose(server, Some(groups), client, config);
      forall i | 0 <= i < |server|
        ensures Eligible(server, Some(groups), client, config, i) <==> Acceptable(server, client, config, i)
      {
        EligibleIff(server, Some(groups), client, config, i);
      }
    } else {
      r := Choose(client, None, server, config);
      forall i | 0 <= i < |client|
        ensures Eligible(client, None, server, config, i) <==> Acceptable(client, server, config, i)
        ensures Best(client, None, server, config, i) <==>
                FirstAcceptable(client, server, config, i)
      {
        EligibleIff(client, None, server, config, i);
        BestWithoutGroups(client, server, config, i);
      }
    }
  }
}
