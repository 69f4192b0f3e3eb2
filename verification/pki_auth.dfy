/**
 * `PkiAuthentication.authenticate` of `ozpcenter/auth/pkiauth.py`.
 *
 * A reverse proxy (nginx) terminates mutual TLS and forwards its verdict in
 * headers: `HTTP_X_SSL_AUTHENTICATED` (the value of `$ssl_client_verify`),
 * `HTTP_X_SSL_USER_DN` and `HTTP_X_SSL_ISSUER_DN`. The authenticator trusts
 * those headers only on a secure request whose status header is exactly
 * `SUCCESS`, optionally normalises both DNs, and hands them to the resolver.
 * It answers with the resolved account, or `None` ("this method does not
 * apply"), never with an exception.
 */
module PkiAuth {
  import opened Wrappers
  import opened DnNormalizer
  import opened Profiles

  /** What `authenticate` reads from the request: `request.is_secure()` and three `request.META` entries. */
  datatype Request = Request(
    isSecure: bool,
    sslAuthenticated: Option<string>,
    sslUserDn: Option<string>,
    sslIssuerDn: Option<string>)

  /** Python's truth value of `request.META.get(name, None)`: present and not empty. */
  predicate HeaderPresent(header: Option<string>)
    ensures HeaderPresent(header) <==> header != None && header != Some("")
  {
    header.Some? && header.value != ""
  }

  /** The checklist `authenticate` runs before it looks at the store. */
  predicate GatePasses(request: Request)
    ensures GatePasses(request) <==>
      && request.isSecure
      && request.sslAuthenticated == Some("SUCCESS")
      && request.sslUserDn !in {None, Some("")}
      && request.sslIssuerDn !in {None, Some("")}
  {
    && request.isSecure
    && HeaderPresent(request.sslAuthenticated)
    && request.sslAuthenticated.value == "SUCCESS"
    && HeaderPresent(request.sslUserDn)
    && HeaderPresent(request.sslIssuerDn)
  }

  /** The DN handed to the resolver: normalised only when `PREPROCESS_DN` is set. */
  function ResolverDn(header: string, preprocessDn: bool): (dn: string)
    ensures !preprocessDn ==> dn == header
    ensures preprocessDn ==> '/' !in dn && NoCommaBeforeWord(dn)
    ensures preprocessDn && '/' !in header ==> dn == SpaceAfterComma(header)
  {
    if preprocessDn then
      var dn := PreprocessDn(header);
      assert '/' !in header ==> dn == SpaceAfterComma(header) by {
        if '/' !in header {
          PreprocessDnWithoutSlash(header);
        }
      }
      dn
    else header
  }

  /**
   * `authenticate(request)` as a function of the store: the new store and the
   * authenticated account (`(user, None)` in the source) or `None`.
   */
  function Authentication(st: StoreState, request: Request, preprocessDn: bool): (res: (StoreState, Option<User>))
    ensures !request.isSecure ==> res == (st, None)
    ensures request.sslAuthenticated != Some("SUCCESS") ==> res == (st, None)
    ensures !HeaderPresent(request.sslUserDn) || !HeaderPresent(request.sslIssuerDn) ==> res == (st, None)
    ensures GatePasses(request) ==>
      var dn := ResolverDn(request.sslUserDn.value, preprocessDn);
      var issuerDn := ResolverDn(request.sslIssuerDn.value, preprocessDn);
      var (st', profile) := Resolve(st, dn, issuerDn);
      && res.0 == st'
      && (res.1.Some? <==> profile.Some?)
      && (profile.Some? ==> res.1.value == profile.value.user)
    ensures res.1.Some? ==> GatePasses(request) && res.1.value.isActive
  {
    if !request.isSecure then (st, None)
    else if !HeaderPresent(request.sslAuthenticated) then (st, None)
    else if request.sslAuthenticated.value != "SUCCESS" then (st, None)
    else if !HeaderPresent(request.sslUserDn) then (st, None)
    else if !HeaderPresent(request.sslIssuerDn) then (st, None)
    else
      var dn := ResolverDn(request.sslUserDn.value, preprocessDn);
      var issuerDn := ResolverDn(request.sslIssuerDn.value, preprocessDn);
      var (st', profile) := Resolve(st, dn, issuerDn);
      (st', if profile.Some? then Some(profile.value.user) else None)
  }

  /** `PkiAuthentication.authenticate(request)`, with the `PREPROCESS_DN` setting as a parameter. */
  method Authenticate(store: ProfileStore, request: Request, preprocessDn: bool) returns (result: Option<User>)
    requires store.Valid()
    modifies store
    ensures store.Valid()
    ensures (store.State(), result) == Authentication(old(store.State()), request, preprocessDn)
  {
    if !request.isSecure {
      return None;
    }
    var authenticationStatus := request.sslAuthenticated;
    if !HeaderPresent(authenticationStatus) {
      return None;
    }
    if authenticationStatus.value != "SUCCESS" {
      return None;
    }
    if !HeaderPresent(request.sslUserDn) {
      return None;
    }
    var dn := request.sslUserDn.value;
    if !HeaderPresent(request.sslIssuerDn) {
      return None;
    }
    var issuerDn := request.sslIssuerDn.value;
    if preprocessDn {
      dn := PreprocessDn(dn);
      issuerDn := PreprocessDn(issuerDn);
    }
    var profile := store.GetProfileByDn(dn, issuerDn);
    if profile.Some? {
      return Some(profile.value.user);
    }
    return None;
  }

  /**
   * Sending the same request again authenticates the same account (or fails
   * again) and changes nothing: no issuer update, no new account, no event.
   */
  lemma AuthenticationIdempotent(st: StoreState, request: Request, preprocessDn: bool)
    ensures var (st1, user1) := Authentication(st, request, preprocessDn);
      Authentication(st1, request, preprocessDn) == (st1, user1)
  {
    if GatePasses(request) {
      var dn := ResolverDn(request.sslUserDn.value, preprocessDn);
      var issuerDn := ResolverDn(request.sslIssuerDn.value, preprocessDn);
      ResolveIdempotent(st, dn, issuerDn);
    }
  }

  /**
   * An account that is not active is never authenticated through its DN,
   * whatever the headers say, and the store is left as it was.
   */
  lemma AuthenticationRejectsInactive(st: StoreState, request: Request, preprocessDn: bool, i: nat)
    requires GatePasses(request)
    requires FindByDn(st.profiles, ResolverDn(request.sslUserDn.value, preprocessDn)) == Some(i)
    requires !st.profiles[i].user.isActive
    ensures Authentication(st, request, preprocessDn) == (st, None)
  {
    ResolveRejectsInactive(st, ResolverDn(request.sslUserDn.value, preprocessDn),
      ResolverDn(request.sslIssuerDn.value, preprocessDn), i);
  }
}

/** A first and a second login, on concrete headers. */
module PkiAuthScenarios {
  import opened Wrappers
  import opened Text
  import opened DnNormalizer
  import opened Profiles
  import opened PkiAuth

  lemma SanitizeJaneDoe()
    ensures SanitizeUsername("Jane Doe") == "jane_doe"
  {
    var cn := "Jane Doe";
    assert Truncate(cn, 30) == cn;
    var underscored := ReplaceChar(cn, ' ', '_');
    assert underscored == "Jane_Doe";
    assert '\'' !in underscored;
    assert Lower(underscored) == "jane_doe";
  }

  lemma PreprocessJaneDoe()
    ensures PreprocessDn("/OU=Org/CN=Jane Doe") == "CN=Jane Doe, OU=Org"
  {
    var ou, cn := "OU=Org", "CN=Jane Doe";
    assert [ou, cn][1..] == [cn] && [cn, ou][1..] == [ou];
    assert "/OU=Org/CN=Jane Doe" == "/" + Join([ou, cn], "/");
    assert "CN=Jane Doe, OU=Org" == Join([cn, ou], ", ");
    NoCommaIsClean(ou);
    NoCommaIsClean(cn);
    PreprocessDnReversesComponents([ou, cn]);
    assert Reverse([ou, cn]) == [cn, ou];
  }

  lemma PreprocessCa()
    ensures PreprocessDn("/CN=CA") == "CN=CA"
  {
    var ca := "CN=CA";
    assert "/CN=CA" == "/" + Join([ca], "/");
    NoCommaIsClean(ca);
    PreprocessDnReversesComponents([ca]);
  }

  lemma JaneDoeDisplayName()
    ensures DisplayNameFor("CN=Jane Doe, OU=Org") == "Jane Doe"
  {
    var dn := "CN=Jane Doe, OU=Org";
    assert dn == "" + "CN=" + "Jane Doe" + "," + " OU=Org";
    DisplayNameOfTerminatedCn(dn, "", "Jane Doe", " OU=Org");
  }

  function JaneDoeProfile(): Profile {
    Profile(User("jane_doe", true), "CN=Jane Doe, OU=Org", "CN=CA", "Jane Doe")
  }

  /** The first login into an empty store creates one profile, one account and one event. */
  lemma ResolveIntoEmptyStore(dn: string, issuerDn: string)
    ensures var name := DisplayNameFor(dn);
      var p := Profile(User(SanitizeUsername(name), true), dn, issuerDn, name);
      Resolve(StoreState([], {}, []), dn, issuerDn)
        == (StoreState([p], {SanitizeUsername(name)}, [ProfileCreated(p)]), Some(p))
  {
    var empty := StoreState([], {}, []);
    var name := DisplayNameFor(dn);
    var p := Profile(User(SanitizeUsername(name), true), dn, issuerDn, name);
    assert NewUsername(name, {}) == SanitizeUsername(name);
    ResolveCreates(empty, dn, issuerDn);
    var res := Resolve(empty, dn, issuerDn);
    assert res.1 == Some(p);
    assert res.0.profiles == [] + [p] == [p];
    assert res.0.events == [] + [ProfileCreated(p)];
    assert res.0.usernames == {} + {SanitizeUsername(name)};
    assert res.0 == StoreState([p], {SanitizeUsername(name)}, [ProfileCreated(p)]);
  }

  lemma ResolveJaneDoe()
    ensures Resolve(StoreState([], {}, []), "CN=Jane Doe, OU=Org", "CN=CA")
         == (StoreState([JaneDoeProfile()], {"jane_doe"}, [ProfileCreated(JaneDoeProfile())]), Some(JaneDoeProfile()))
  {
    JaneDoeDisplayName();
    SanitizeJaneDoe();
    ResolveIntoEmptyStore("CN=Jane Doe, OU=Org", "CN=CA");
  }

  /**
   * A secure request with status `SUCCESS`, subject `/OU=Org/CN=Jane Doe` and
   * issuer `/CN=CA`, normalisation on, against an empty store: one profile
   * `CN=Jane Doe, OU=Org` with display name `Jane Doe` and account `jane_doe`
   * is created, one `profile_created` event is published, and the account is
   * returned.
   */
  lemma FirstLoginProvisions(request: Request)
    requires request == Request(true, Some("SUCCESS"), Some("/OU=Org/CN=Jane Doe"), Some("/CN=CA"))
    ensures Authentication(StoreState([], {}, []), request, true)
         == (StoreState([JaneDoeProfile()], {"jane_doe"}, [ProfileCreated(JaneDoeProfile())]), Some(User("jane_doe", true)))
  {
    PreprocessJaneDoe();
    PreprocessCa();
    assert GatePasses(request);
    ResolveJaneDoe();
  }

  /** The same request a second time returns the same account and changes nothing. */
  lemma SecondLoginChangesNothing(request: Request)
    requires request == Request(true, Some("SUCCESS"), Some("/OU=Org/CN=Jane Doe"), Some("/CN=CA"))
    ensures var st1 := Authentication(StoreState([], {}, []), request, true).0;
      Authentication(st1, request, true) == (st1, Some(User("jane_doe", true)))
  {
    FirstLoginProvisions(request);
    AuthenticationIdempotent(StoreState([], {}, []), request, true);
  }
}
