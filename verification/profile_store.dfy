/**
 * The find-or-create resolver `_get_profile_by_dn` of
 * `ozpcenter/auth/pkiauth.py`, over an in-memory account/profile store.
 *
 * The database behind Django's ORM is modelled as three collections: the
 * profiles (each owning its account), the set of every account's username
 * (accounts may exist without a profile), and the log of events published on
 * the internal bus. `StoreState` is that store as a value; `Resolve` is the
 * resolver as a function of it, and `ProfileStore.GetProfileByDn` is the
 * resolver as the source writes it, step by step on a mutable store, proved to
 * agree with `Resolve`.
 */
module Profiles {
  import opened Wrappers
  import opened Text

  /** An account: Django's `User`, reduced to what the resolver reads. */
  datatype User = User(username: string, isActive: bool)

  /** `models.Profile`: the record binding a certificate DN to an account. */
  datatype Profile = Profile(user: User, dn: string, issuerDn: string, displayName: string)

  /** What `dispatcher.publish('profile_created', profile=...)` puts on the bus. */
  datatype Event = ProfileCreated(profile: Profile)

  datatype StoreState = StoreState(profiles: seq<Profile>, usernames: set<string>, events: seq<Event>)

  /** The lookup `dn__iexact`: equality up to (ASCII) case. */
  predicate SameDn(a: string, b: string)
    ensures SameDn(a, b) <==> |a| == |b| && forall i :: 0 <= i < |a| ==> LowerChar(a[i]) == LowerChar(b[i])
  {
    Lower(a) == Lower(b)
  }

  /** `Profile.objects.filter(dn__iexact=dn).first()`: the first profile, in store order, whose DN matches. */
  function FindByDn(profiles: seq<Profile>, dn: string): (r: Option<nat>)
    ensures r.Some? ==> r.value < |profiles| && SameDn(profiles[r.value].dn, dn)
    ensures r.Some? ==> forall k :: 0 <= k < r.value ==> !SameDn(profiles[k].dn, dn)
    ensures r.None? <==> forall k :: 0 <= k < |profiles| ==> !SameDn(profiles[k].dn, dn)
  {
    if profiles == [] then None
    else if SameDn(profiles[0].dn, dn) then Some(0)
    else match FindByDn(profiles[1..], dn)
      case None => None
      case Some(j) => Some(j + 1)
  }

  /**
   * The display name given to a DN seen for the first time: the value of its
   * `CN=` attribute when it has one (up to the next comma), else the whole DN.
   */
  function DisplayNameFor(dn: string): (cn: string)
    ensures !Contains(dn, "CN=") ==> cn == dn
    ensures Contains(dn, "CN=") ==> ',' !in cn && cn <= dn[IndexOf(dn, "CN=").value + 3..]
  {
    if Contains(dn, "CN=") then
      var cn := FindBetween(dn, "CN=", ",");
      assert ',' !in cn by {
        forall k | 0 <= k < |cn| ensures cn[k] != ',' {
          assert cn[k..k + 1] == [cn[k]];
          assert !OccursAt(cn, ",", k);
        }
      }
      cn
    else dn
  }

  /** What the sanitised username always is: short, without spaces or apostrophes, lower case. */
  predicate IsSanitized(u: string) {
    |u| <= 30 && ' ' !in u && '\'' !in u && forall i :: 0 <= i < |u| ==> !IsUpper(u[i])
  }

  /** The four sanitising steps: at most 30 characters, spaces to `_`, apostrophes dropped, lower case. */
  function SanitizeUsername(cn: string): (u: string)
    ensures IsSanitized(u)
    ensures |u| <= |cn|
    ensures '\'' !in cn ==>
      && |u| == |Truncate(cn, 30)|
      && forall i :: 0 <= i < |u| ==> u[i] == LowerChar(if cn[i] == ' ' then '_' else cn[i])
  {
    var cut := Truncate(cn, 30);
    var underscored := ReplaceChar(cut, ' ', '_');
    var plain := RemoveChar(underscored, '\'');
    assert '\'' !in cn ==> plain == underscored by {
      if '\'' !in cn {
        forall i | 0 <= i < |underscored| ensures underscored[i] != '\'' {
          assert cut[i] == cn[i];
        }
      }
    }
    assert ' ' !in plain by {
      assert ' ' !in underscored by {
        forall i | 0 <= i < |underscored| ensures underscored[i] != ' ' { }
      }
    }
    var u := Lower(plain);
    assert ' ' !in u && '\'' !in u by {
      forall i | 0 <= i < |u| ensures u[i] != ' ' && u[i] != '\'' {
        assert plain[i] in plain;
      }
    }
    u
  }

  /** Sanitising leaves a username alone exactly when it is already sanitised, so sanitising twice is sanitising once. */
  lemma SanitizeUsernameFixpoint(u: string)
    ensures SanitizeUsername(u) == u <==> IsSanitized(u)
    ensures SanitizeUsername(SanitizeUsername(u)) == SanitizeUsername(u)
  {
    if IsSanitized(u) {
      assert Truncate(u, 30) == u;
      assert ReplaceChar(u, ' ', '_') == u;
      assert Lower(u) == u;
    }
    var v := SanitizeUsername(u);
    assert Truncate(v, 30) == v;
    assert ReplaceChar(v, ' ', '_') == v;
    assert Lower(v) == v;
  }

  /**
   * When the first `CN=` of a DN is followed by a comma, the display name is
   * exactly the text between them.
   */
  lemma DisplayNameOfTerminatedCn(dn: string, pre: string, name: string, post: string)
    requires dn == pre + "CN=" + name + "," + post
    requires forall k :: 0 <= k < |pre| ==> !OccursAt(dn, "CN=", k)
    requires ',' !in name
    ensures DisplayNameFor(dn) == name
  {
    assert dn[|pre|..|pre| + 3] == "CN=";
    assert OccursAt(dn, "CN=", |pre|);
    assert IndexOf(dn, "CN=") == Some(|pre|);
    var rest := dn[|pre| + 3..];
    assert rest == name + "," + post;
    assert rest[|name|..|name| + 1] == ",";
    assert OccursAt(rest, ",", |name|);
    forall k | 0 <= k < |name| ensures !OccursAt(rest, ",", k) {
      assert rest[k..k + 1] == [name[k]];
      assert name[k] in name;
    }
    assert IndexOf(rest, ",") == Some(|name|);
    assert rest[..|name|] == name;
  }

  /** Number of accounts whose username starts with `prefix` (`username__startswith`). */
  function PrefixCount(prefix: string, usernames: set<string>): (n: nat)
    ensures n == 0 <==> forall u :: u in usernames ==> !(prefix <= u)
    ensures prefix in usernames ==> n >= 1
  {
    var matching := set u | u in usernames && prefix <= u;
    assert matching == {} <==> forall u :: u in usernames ==> !(prefix <= u) by {
      forall u | u in usernames && prefix <= u ensures u in matching { }
    }
    assert prefix in usernames ==> prefix in matching;
    |matching|
  }

  /**
   * The one collision-avoidance candidate: the first 27 characters of the
   * base, `_`, and one more than the number of usernames starting with them.
   */
  function CollisionCandidate(base: string, usernames: set<string>): (c: string)
    ensures var p := Truncate(base, 27);
      && |c| >= |p| + 2 && c[..|p|] == p && c[|p|] == '_'
      && AllDigits(c[|p| + 1..]) && DecimalValue(c[|p| + 1..]) == PrefixCount(p, usernames) + 1
      && c[|p| + 1] != '0'
  {
    var prefix := Truncate(base, 27);
    var n := PrefixCount(prefix, usernames) + 1;
    DecimalRoundTrip(n);
    var c := prefix + "_" + NatToDecimal(n);
    assert c[|prefix| + 1..] == NatToDecimal(n);
    c
  }

  /**
   * The username a new account gets, before the final existence re-check: the
   * sanitised name when it is free, otherwise its collision candidate, which
   * starts with the name's first 27 characters and `_` and ends in the
   * decimal form of one more than the number of usernames sharing that prefix.
   */
  function NewUsername(cn: string, usernames: set<string>): (u: string)
    ensures SanitizeUsername(cn) !in usernames ==> u == SanitizeUsername(cn)
    ensures SanitizeUsername(cn) in usernames ==>
      var p := Truncate(SanitizeUsername(cn), 27);
      && |u| >= |p| + 2 && u[..|p| + 1] == p + "_"
      && AllDigits(u[|p| + 1..]) && u[|p| + 1] != '0'
      && DecimalValue(u[|p| + 1..]) == PrefixCount(p, usernames) + 1
  {
    var base := SanitizeUsername(cn);
    if base in usernames then CollisionCandidate(base, usernames) else base
  }

  /**
   * `_get_profile_by_dn(dn, issuer_dn)` as a function of the store: the new
   * store and the profile returned (`None` for Python's `None`).
   */
  function Resolve(st: StoreState, dn: string, issuerDn: string): (res: (StoreState, Option<Profile>))
    ensures res.1.Some? ==> res.1.value in res.0.profiles
    ensures res.1.Some? ==> res.1.value.user.isActive && SameDn(res.1.value.dn, dn) && res.1.value.issuerDn == issuerDn
    ensures res.1.None? ==> res.0 == st
    ensures st.usernames <= res.0.usernames && |st.profiles| <= |res.0.profiles|
  {
    match FindByDn(st.profiles, dn)
    case Some(i) =>
      var p := st.profiles[i];
      if !p.user.isActive then (st, None)
      else if p.issuerDn != issuerDn then
        var q := p.(issuerDn := issuerDn);
        assert st.profiles[i := q][i] == q;
        (st.(profiles := st.profiles[i := q]), Some(q))
      else (st, Some(p))
    case None =>
      var cn := DisplayNameFor(dn);
      var username := NewUsername(cn, st.usernames);
      if username in st.usernames then (st, None)
      else
        var p := Profile(User(username, true), dn, issuerDn, cn);
        (StoreState(st.profiles + [p], st.usernames + {username}, st.events + [ProfileCreated(p)]), Some(p))
  }

  /**
   * The store's invariants: one profile per DN up to case, one profile per
   * username, and every profile's username registered as an account.
   */
  ghost predicate Consistent(st: StoreState) {
    && (forall i, j :: 0 <= i < j < |st.profiles| ==> !SameDn(st.profiles[i].dn, st.profiles[j].dn))
    && (forall i, j :: 0 <= i < j < |st.profiles| ==> st.profiles[i].user.username != st.profiles[j].user.username)
    && (forall i :: 0 <= i < |st.profiles| ==> st.profiles[i].user.username in st.usernames)
  }

  class ProfileStore {
    var profiles: seq<Profile>
    var usernames: set<string>
    var events: seq<Event>

    function State(): StoreState
      reads this
    {
      StoreState(profiles, usernames, events)
    }

    ghost predicate Valid()
      reads this
    {
      Consistent(State())
    }

    /** A store with no profiles, no accounts and no events. */
    constructor()
      ensures Valid()
      ensures State() == StoreState([], {}, [])
    {
      profiles := [];
      usernames := {};
      events := [];
    }

    /** `_get_profile_by_dn(dn, issuer_dn)`. */
    method GetProfileByDn(dn: string, issuerDn: string) returns (profile: Option<Profile>)
      requires Valid()
      modifies this
      ensures Valid()
      ensures (State(), profile) == Resolve(old(State()), dn, issuerDn)
    {
      ResolvePreservesConsistency(State(), dn, issuerDn);
      var found := FindByDn(profiles, dn);
      if found.Some? {
        var p := profiles[found.value];
        if !p.user.isActive {
          return None;
        }
        if p.issuerDn != issuerDn {
          p := p.(issuerDn := issuerDn);
          profiles := profiles[found.value := p];
        }
        return Some(p);
      }
      profile := CreateProfile(dn, issuerDn);
    }

    /**
     * The branch of `_get_profile_by_dn` for a DN with no profile: derive the
     * display name and the username, re-check the username, then create the
     * account and profile and publish `profile_created`.
     */
    method CreateProfile(dn: string, issuerDn: string) returns (profile: Option<Profile>)
      requires FindByDn(profiles, dn).None?
      modifies this
      ensures (State(), profile) == Resolve(old(State()), dn, issuerDn)
    {
      var cn := if Contains(dn, "CN=") then FindBetween(dn, "CN=", ",") else dn;
      assert cn == DisplayNameFor(dn);
      var username := Truncate(cn, 30);
      username := ReplaceChar(username, ' ', '_');
      username := RemoveChar(username, '\'');
      username := Lower(username);
      SanitizeSteps(cn);
      // User.objects.filter(username=username).count(): usernames are unique
      var count := if username in usernames then 1 else 0;
      if count != 0 {
        var newUsername := Truncate(username, 27);
        count := PrefixCount(newUsername, usernames);
        newUsername := newUsername + "_" + NatToDecimal(count + 1);
        username := newUsername;
        CandidateSteps(cn, usernames);
      }
      count := if username in usernames then 1 else 0;
      if count != 0 {
        return None;
      }
      var p := Profile(User(username, true), dn, issuerDn, cn);
      profiles := profiles + [p];
      usernames := usernames + {username};
      events := events + [ProfileCreated(p)];
      return Some(p);
    }
  }

  /** The four sanitising statements, one after the other, compute `SanitizeUsername`. */
  lemma SanitizeSteps(cn: string)
    ensures Lower(RemoveChar(ReplaceChar(Truncate(cn, 30), ' ', '_'), '\'')) == SanitizeUsername(cn)
  {
  }

  /** The collision statements, one after the other, compute `NewUsername` for a taken name. */
  lemma CandidateSteps(cn: string, usernames: set<string>)
    requires SanitizeUsername(cn) in usernames
    ensures var prefix := Truncate(SanitizeUsername(cn), 27);
      prefix + "_" + NatToDecimal(PrefixCount(prefix, usernames) + 1) == NewUsername(cn, usernames)
  {
  }

  lemma ConsistentAfterIssuerUpdate(st: StoreState, i: nat, q: Profile)
    requires Consistent(st)
    requires i < |st.profiles| && q.dn == st.profiles[i].dn && q.user == st.profiles[i].user
    ensures Consistent(st.(profiles := st.profiles[i := q]))
  {
    var ps := st.profiles[i := q];
    assert forall k :: 0 <= k < |ps| ==> ps[k].dn == st.profiles[k].dn && ps[k].user == st.profiles[k].user;
  }

  lemma ConsistentAfterCreate(st: StoreState, p: Profile)
    requires Consistent(st)
    requires forall k :: 0 <= k < |st.profiles| ==> !SameDn(st.profiles[k].dn, p.dn)
    requires p.user.username !in st.usernames
    ensures Consistent(StoreState(st.profiles + [p], st.usernames + {p.user.username}, st.events + [ProfileCreated(p)]))
  {
    var ps := st.profiles + [p];
    assert forall k :: 0 <= k < |st.profiles| ==> ps[k] == st.profiles[k];
    assert ps[|st.profiles|] == p;
    forall i, j | 0 <= i < j < |ps|
      ensures !SameDn(ps[i].dn, ps[j].dn)
      ensures ps[i].user.username != ps[j].user.username
    {
      if j == |st.profiles| {
        assert st.profiles[i].user.username in st.usernames;
      }
    }
  }

  /** The resolver keeps the store's invariants. */
  lemma ResolvePreservesConsistency(st: StoreState, dn: string, issuerDn: string)
    requires Consistent(st)
    ensures Consistent(Resolve(st, dn, issuerDn).0)
  {
    match FindByDn(st.profiles, dn)
    case Some(i) =>
      var p := st.profiles[i];
      if p.user.isActive && p.issuerDn != issuerDn {
        ConsistentAfterIssuerUpdate(st, i, p.(issuerDn := issuerDn));
      }
    case None =>
      var cn := DisplayNameFor(dn);
      var username := NewUsername(cn, st.usernames);
      if username !in st.usernames {
        ConsistentAfterCreate(st, Profile(User(username, true), dn, issuerDn, cn));
      }
  }

  /** An account that is not active is never resolved, and the store is left as it was. */
  lemma ResolveRejectsInactive(st: StoreState, dn: string, issuerDn: string, i: nat)
    requires FindByDn(st.profiles, dn) == Some(i)
    requires !st.profiles[i].user.isActive
    ensures Resolve(st, dn, issuerDn) == (st, None)
  {
  }

  /**
   * An existing active profile is returned with the given issuer DN; only that
   * field of that profile may change, and only when it differs.
   */
  lemma ResolveExisting(st: StoreState, dn: string, issuerDn: string, i: nat)
    requires FindByDn(st.profiles, dn) == Some(i)
    requires st.profiles[i].user.isActive
    ensures var (st', r) := Resolve(st, dn, issuerDn);
      && r == Some(st.profiles[i].(issuerDn := issuerDn))
      && st'.usernames == st.usernames && st'.events == st.events
      && |st'.profiles| == |st.profiles|
      && (forall k :: 0 <= k < |st.profiles| && k != i ==> st'.profiles[k] == st.profiles[k])
      && st'.profiles[i] == r.value
      && (st.profiles[i].issuerDn == issuerDn ==> st' == st)
  {
  }

  /**
   * For a DN not in the store: the new profile stores exactly the given DN and
   * issuer DN and the derived display name, its account is active and its
   * username was not taken; exactly one profile, one account and one
   * `profile_created` event are added. If the final candidate is taken,
   * nothing is created.
   */
  lemma ResolveCreates(st: StoreState, dn: string, issuerDn: string)
    requires FindByDn(st.profiles, dn).None?
    ensures var (st', r) := Resolve(st, dn, issuerDn);
      var username := NewUsername(DisplayNameFor(dn), st.usernames);
      && (username in st.usernames ==> r.None? && st' == st)
      && (username !in st.usernames ==>
            && r == Some(Profile(User(username, true), dn, issuerDn, DisplayNameFor(dn)))
            && st'.profiles == st.profiles + [r.value]
            && st'.usernames == st.usernames + {username}
            && st'.events == st.events + [ProfileCreated(r.value)])
  {
  }

  lemma FindByDnSameDns(ps: seq<Profile>, qs: seq<Profile>, dn: string)
    requires |ps| == |qs|
    requires forall k :: 0 <= k < |ps| ==> ps[k].dn == qs[k].dn
    ensures FindByDn(ps, dn) == FindByDn(qs, dn)
  {
  }

  lemma FindByDnAppended(ps: seq<Profile>, p: Profile, dn: string)
    requires FindByDn(ps, dn).None?
    requires SameDn(p.dn, dn)
    ensures FindByDn(ps + [p], dn) == Some(|ps|)
  {
    assert (ps + [p])[|ps|] == p;
    assert forall k :: 0 <= k < |ps| ==> (ps + [p])[k] == ps[k];
  }

  /**
   * Resolving the same (DN, issuer DN) a second time returns the same answer
   * and writes nothing: no update, no new account, no new event.
   */
  lemma ResolveIdempotent(st: StoreState, dn: string, issuerDn: string)
    ensures var (st1, r1) := Resolve(st, dn, issuerDn);
      Resolve(st1, dn, issuerDn) == (st1, r1)
  {
    var (st1, r1) := Resolve(st, dn, issuerDn);
    match FindByDn(st.profiles, dn)
    case Some(i) =>
      FindByDnSameDns(st.profiles, st1.profiles, dn);
    case None =>
      if r1.Some? {
        FindByDnAppended(st.profiles, r1.value, dn);
      }
  }

  /** Two logins with different DNs that both succeed are bound to different usernames. */
  lemma DistinctDnsGetDistinctUsernames(st: StoreState, dn1: string, issuer1: string, dn2: string, issuer2: string)
    requires Consistent(st)
    requires !SameDn(dn1, dn2)
    requires Resolve(st, dn1, issuer1).1.Some?
    requires Resolve(Resolve(st, dn1, issuer1).0, dn2, issuer2).1.Some?
    ensures Resolve(st, dn1, issuer1).1.value.user.username
         != Resolve(Resolve(st, dn1, issuer1).0, dn2, issuer2).1.value.user.username
  {
    var (st1, r1) := Resolve(st, dn1, issuer1);
    var (st2, r2) := Resolve(st1, dn2, issuer2);
    ResolvePreservesConsistency(st, dn1, issuer1);
    var p1, p2 := r1.value, r2.value;
    var i :| 0 <= i < |st1.profiles| && st1.profiles[i] == p1;
    assert p1.user.username in st1.usernames;
    match FindByDn(st1.profiles, dn2)
    case Some(j) =>
      assert p2.user == st1.profiles[j].user;
      assert SameDn(st1.profiles[j].dn, dn2);
      assert i != j;
    case None =>
  }

  /**
   * The single collision-avoidance pass can fail. Say the base username `b`
   * (at most 27 characters) and `b_3` are taken, and they are the only
   * usernames starting with `b`. Then the count gives the candidate `b_3`,
   * which is taken, and a new DN whose CN sanitises to `b` gets no profile.
   * The store is left as it was, so the same login fails again for as long as
   * those usernames stay the only ones with that prefix.
   */
  lemma ResolveCanExhaust(st: StoreState, dn: string, issuerDn: string)
    requires FindByDn(st.profiles, dn).None?
    requires |SanitizeUsername(DisplayNameFor(dn))| <= 27
    requires SanitizeUsername(DisplayNameFor(dn)) in st.usernames
    requires SanitizeUsername(DisplayNameFor(dn)) + "_3" in st.usernames
    requires PrefixCount(SanitizeUsername(DisplayNameFor(dn)), st.usernames) == 2
    ensures Resolve(st, dn, issuerDn) == (st, None)
  {
    var base := SanitizeUsername(DisplayNameFor(dn));
    assert Truncate(base, 27) == base;
    assert NatToDecimal(3) == "3";
    assert CollisionCandidate(base, st.usernames) == base + "_" + "3";
    assert NewUsername(DisplayNameFor(dn), st.usernames) == base + "_3";
  }
}
