# PKI certificate-header authentication (ozp-backend), modelled in Dafny

This project models how the ozp-backend API server authenticates users by
client certificate (`ozpcenter/auth/pkiauth.py`). A reverse proxy (nginx)
terminates mutual TLS and passes its result on in three request headers:

- `HTTP_X_SSL_AUTHENTICATED` holds the value of `$ssl_client_verify`;
- `HTTP_X_SSL_USER_DN` holds the subject DN;
- `HTTP_X_SSL_ISSUER_DN` holds the issuer DN.

The authenticator works in three steps:

1. It trusts the headers only on a secure request whose status is exactly
   `SUCCESS`.
2. It optionally normalises both DNs from the slash-separated, root-first form
   OpenSSL prints into the comma-separated, leaf-first form.
3. It finds the profile bound to the subject DN, ignoring case, or creates one.
   A new profile gets a display name taken from the DN's `CN=` attribute and a
   username derived from that name.

Files:

- `wrappers.dfy`: `Option`, which stands in for Python's `None` against a value.
- `text.dfy`: the parts of Python's string library the source uses. This
  covers `\w`, `lower`, `replace`, slicing, `in`, `str(int)` and a stand-in for
  `utils.find_between`, plus the decimal round trip.
- `dn_normalizer.dfy`: `_preprocess_dn` as pure functions, with its properties:
  - no `/` survives;
  - no comma is directly followed by a word character;
  - components are reversed and joined by `", "`;
  - exactly one leading `/` is dropped;
  - split/join are inverse;
  - the regex step puts one space after each comma that is followed by a word
    character, changes nothing else, and is the identity exactly on clean
    strings.
- `profile_store.dfy`: the store and `_get_profile_by_dn`.
  - `Resolve` is the resolver as a function of the store value.
  - `ProfileStore.GetProfileByDn` (with `ProfileStore.CreateProfile` for a
    new DN) is the resolver written step by step on a mutable store, proved to agree with `Resolve` and to keep the store's
    invariants.
  - Lemmas prove that inactive accounts are rejected, that only the issuer DN
    of an existing profile may change, what creation adds, idempotence,
    username uniqueness, and that the single collision pass can exhaust.
- `pki_auth.dfy`: `authenticate`.
  - `Authentication` is the header gate as a function.
  - `Authenticate` is the early-return method, proved against it.
  - Lemmas prove idempotence and rejection of inactive accounts.
  - Concrete first and second logins are worked through.

## Model

| member | source | states |
|---|---|---|
| PkiAuth.Authentication | ozpcenter/auth/pkiauth.py:33-80 | Returns the unchanged store and no user when the request is not secure, whatever the headers say. Does the same when the status is anything but exactly `SUCCESS`, or when the subject or issuer DN header is missing or empty. Otherwise its result is the resolver's new store and the resolved profile's user, and it returns a user only when the gate passed and that user is active. |
| PkiAuth.Authenticate | ozpcenter/auth/pkiauth.py:33-80 | The guard chain with early returns. The new store and the result equal `Authentication` of the old store, and the store invariants are kept. Every rejected request leaves the store untouched, so the resolver had no effect. |
| PkiAuth.AuthenticationIdempotent | ozpcenter/auth/pkiauth.py:67-80 | Sending the same request again gives the same answer and changes nothing further. |
| PkiAuth.AuthenticationRejectsInactive | ozpcenter/auth/pkiauth.py:73-80 | When the DN the resolver receives matches a profile with an inactive account, authentication returns nothing and the store is unchanged. |
| PkiAuthScenarios.FirstLoginProvisions | ozpcenter/auth/pkiauth.py:67-80 | With normalisation on, a secure `SUCCESS` request with subject `/OU=Org/CN=Jane Doe` and issuer `/CN=CA` against an empty store creates profile `CN=Jane Doe, OU=Org` with issuer `CN=CA`, display name `Jane Doe` and account `jane_doe`. It also publishes one `profile_created` event and returns that account. |
| PkiAuthScenarios.SecondLoginChangesNothing | ozpcenter/auth/pkiauth.py:105-115 | The same request after the first login returns `jane_doe` and leaves the store as the first login left it. |
| PkiAuthScenarios.ResolveIntoEmptyStore | ozpcenter/auth/pkiauth.py:117-146 | Any first login into an empty store creates exactly one profile with the sanitised display name as its username, one account and one event. |
| PkiAuthScenarios.SanitizeJaneDoe | ozpcenter/auth/pkiauth.py:125-128 | `Jane Doe` sanitises to `jane_doe`. |
| PkiAuthScenarios.PreprocessJaneDoe | ozpcenter/auth/pkiauth.py:83-95 | `/OU=Org/CN=Jane Doe` normalises to `CN=Jane Doe, OU=Org`. |
| PkiAuthScenarios.PreprocessCa | ozpcenter/auth/pkiauth.py:83-95 | `/CN=CA` normalises to `CN=CA`. |
| PkiAuthScenarios.JaneDoeDisplayName | ozpcenter/auth/pkiauth.py:118-121 | The display name of `CN=Jane Doe, OU=Org` is `Jane Doe`. |
| PkiAuthScenarios.ResolveJaneDoe | ozpcenter/auth/pkiauth.py:117-146 | Resolving `CN=Jane Doe, OU=Org` into an empty store creates the `jane_doe` profile and its event. |
| DnNormalizer.PreprocessDn | ozpcenter/auth/pkiauth.py:83-95 | The result contains no `/`, and no comma in it is directly followed by a word character. The empty DN maps to the empty string. |
| DnNormalizer.PreprocessDnReversesComponents | ozpcenter/auth/pkiauth.py:88-93 | For `/` followed by components joined by `/`, where no component holds a `/` or a comma before a word character, the result is the components in reverse order joined by `", "`. |
| DnNormalizer.PreprocessDnThreeComponents | ozpcenter/auth/pkiauth.py:88-93 | `/a/b/c` becomes `c, b, a` for comma-free, slash-free components. |
| DnNormalizer.PreprocessDnLeadingSlash | ozpcenter/auth/pkiauth.py:88-90 | One leading `/` is dropped: the result for `/` + s equals the result for s when s does not start with `/`. |
| DnNormalizer.PreprocessDnWithoutSlash | ozpcenter/auth/pkiauth.py:88-94 | A DN without `/` is left as it is, except for the space inserted after a comma that precedes a word character. |
| DnNormalizerExamples.PreprocessDnExample | ozpcenter/auth/pkiauth.py:83-95 | `/CN=Jane Doe/OU=Org/O=Example` becomes `O=Example, OU=Org, CN=Jane Doe`. |
| DnNormalizerExamples.PreprocessDnStripsOneSlash | ozpcenter/auth/pkiauth.py:88-93 | Only one leading `/` is removed: `//CN=Jane` becomes `CN=Jane, `, with the empty first component moved to the end. |
| DnNormalizer.Split | ozpcenter/auth/pkiauth.py:91 | `str.split`: at least one part, and no part contains the separator. `SplitAppend` fixes the order of the parts. |
| DnNormalizer.SplitAppend | ozpcenter/auth/pkiauth.py:91 | The order of the parts: for `a` without the separator, splitting `a`, separator, `b` gives `a` followed by the parts of `b`. |
| DnNormalizer.JoinSplit | ozpcenter/auth/pkiauth.py:91-93 | Joining the parts of a split with the same separator gives back the string. |
| DnNormalizer.SplitJoin | ozpcenter/auth/pkiauth.py:91-93 | Splitting a join of separator-free parts gives back the parts. |
| DnNormalizer.Reverse | ozpcenter/auth/pkiauth.py:92 | `[::-1]`: same length, and element i is element n-1-i of the input. |
| DnNormalizer.SpaceAfterComma | ozpcenter/auth/pkiauth.py:94 | The regex substitution leaves no comma directly before a word character, adds no character other than a space, and keeps the first character. |
| DnNormalizer.SpaceAfterCommaPlacesSpaces | ozpcenter/auth/pkiauth.py:94 | The substitution equals the reference that goes position by position. It keeps every input character in order, spaces included, and puts exactly one space after each comma directly followed by a word character. So the left-to-right, non-overlapping scan misses no match. |
| DnNormalizer.SpaceAfterCommaFixpoint | ozpcenter/auth/pkiauth.py:94 | The substitution changes the string if and only if some comma is directly followed by a word character. |
| DnNormalizer.SpaceAfterCommaOnlyInsertsSpaces | ozpcenter/auth/pkiauth.py:94 | Removing spaces from the result gives the input with its spaces removed: every character other than a space is kept, in order. Where the spaces go is pinned by `SpaceAfterCommaPlacesSpaces`. |
| DnNormalizer.Join | ozpcenter/auth/pkiauth.py:93 | `", ".join`: every character of the result comes from the separator or from one of the parts. `JoinAppend` fixes the order of the parts for any separator, `", "` included. |
| DnNormalizer.JoinAppend | ozpcenter/auth/pkiauth.py:93 | The order of the parts, for any separator: joining parts followed by `x` gives the join of the parts, then the separator, then `x`. |
| DnNormalizer.JoinClean | ozpcenter/auth/pkiauth.py:93-94 | Components with no comma before a word character stay so once joined with `", "`. |
| Profiles.FindByDn | ozpcenter/auth/pkiauth.py:105 | `filter(dn__iexact=dn).first()`: the index of the first profile whose DN equals `dn` up to case. It returns none if and only if no profile matches. |
| Profiles.Resolve | ozpcenter/auth/pkiauth.py:98-146 | A returned profile is in the new store, has an active account, has a DN equal to `dn` up to case, and carries `issuer_dn`. When nothing is returned the store is unchanged. The store never loses accounts or profiles. |
| Profiles.ProfileStore.GetProfileByDn | ozpcenter/auth/pkiauth.py:98-146 | The resolver step by step on the mutable store. The new store and the result equal `Resolve` of the old store, and the invariants (unique DNs up to case, unique usernames, every profile's account registered) are kept. |
| Profiles.ProfileStore.CreateProfile | ozpcenter/auth/pkiauth.py:116-146 | The branch for a DN with no profile, step by step. It derives the display name, sanitises it, makes one collision pass, re-checks the username, then creates the account and profile and publishes the event. The new store and the result equal `Resolve` of the old store. |
| Profiles.ResolvePreservesConsistency | ozpcenter/auth/pkiauth.py:98-146 | The resolver keeps DN uniqueness up to case, username uniqueness, and registration of every profile's account. |
| Profiles.ResolveRejectsInactive | ozpcenter/auth/pkiauth.py:105-109 | A matching profile with an inactive account yields nothing, and the store is unchanged. |
| Profiles.ResolveExisting | ozpcenter/auth/pkiauth.py:105-115 | A matching active profile is returned with the given issuer DN. No other profile, account or event changes. The store is untouched when the issuer DN already matched. |
| Profiles.ResolveIdempotent | ozpcenter/auth/pkiauth.py:105-115 | Resolving the same DN and issuer DN a second time gives the same answer and writes nothing. |
| Profiles.ResolveCreates | ozpcenter/auth/pkiauth.py:117-146 | For an unknown DN, a taken final candidate yields nothing and leaves the store unchanged. Otherwise exactly one active profile is added, holding the given DN, the given issuer DN and the derived display name. Exactly one new username and one `profile_created` event are added with it. |
| Profiles.DistinctDnsGetDistinctUsernames | ozpcenter/auth/pkiauth.py:137-146 | Two successful logins with DNs that differ up to case are bound to different usernames. |
| Profiles.ResolveCanExhaust | ozpcenter/auth/pkiauth.py:130-141 | Take a base username `b` of at most 27 characters. When `b` and `b_3` are taken and are the only usernames starting with `b`, a new DN sanitising to `b` gets no profile, and the store is unchanged. Other usernames may exist. |
| Profiles.DisplayNameFor | ozpcenter/auth/pkiauth.py:118-121 | Without `CN=`, the display name is the whole DN. With it, the display name is a prefix of the text after the first `CN=` and contains no comma. |
| Profiles.DisplayNameOfTerminatedCn | ozpcenter/auth/pkiauth.py:118-119 | When the first `CN=` is followed by a comma, the display name is exactly the text between them. |
| Profiles.SanitizeUsername | ozpcenter/auth/pkiauth.py:125-128 | The base username has at most 30 characters, no space, no apostrophe and no upper-case letter, and is no longer than the display name. For a display name without apostrophes, it has the length of the first 30 characters. Its i-th character is the lowercased i-th character of the name, with a space turned into `_`. |
| Profiles.SanitizeUsernameFixpoint | ozpcenter/auth/pkiauth.py:125-128 | Sanitising leaves a string unchanged if and only if it is already sanitised, so sanitising is idempotent. |
| Profiles.CollisionCandidate | ozpcenter/auth/pkiauth.py:132-134 | The candidate is the first 27 characters of the base, then `_`, then decimal digits without a leading zero whose value is the number of usernames starting with that prefix plus one. This is `str(count + 1)`. |
| Profiles.NewUsername | ozpcenter/auth/pkiauth.py:125-135 | A free sanitised name is kept. A taken one is replaced by its first 27 characters, `_`, and the decimal form, without a leading zero, of one more than the number of usernames sharing that prefix. |
| Profiles.PrefixCount | ozpcenter/auth/pkiauth.py:133 | `filter(username__startswith=prefix).count()`: zero if and only if no username starts with the prefix, and at least one when the prefix is itself a username. |
| Profiles.SameDn | ozpcenter/auth/pkiauth.py:105 | `dn__iexact`: two DNs match if and only if they have the same length and agree character by character after lowercasing. |
| Profiles.ProfileStore.constructor | ozpcenter/auth/pkiauth.py:98-146 | A new store is empty and satisfies the invariants the resolver keeps, so `GetProfileByDn` and `Authenticate` can be called on it. |
| Text.FindBetween | ozpcenter/auth/pkiauth.py:119 | The extracted text is a prefix of what follows the first `first` marker, and `last` does not occur in it. |
| Text.RemoveChar | ozpcenter/auth/pkiauth.py:127 | `replace(c, "")`: `c` no longer occurs, no character is added, and a string without `c` is unchanged. |
| Text.RemoveCharConcat | ozpcenter/auth/pkiauth.py:127 | Dropping a character from a concatenation drops it from each half, so the other characters keep their order. |
| Text.Truncate | ozpcenter/auth/pkiauth.py:125 | `s[0:n]`: a prefix of `s`, of length `n` or all of `s` when it is shorter. |
| Text.ReplaceChar | ozpcenter/auth/pkiauth.py:126 | `replace(' ', '_')`: same length, with each occurrence of the old character replaced and every other character unchanged. |
| Text.IndexOf | ozpcenter/auth/pkiauth.py:118-119 | The first index where the pattern occurs, or none if and only if it occurs nowhere. |
| Text.Contains | ozpcenter/auth/pkiauth.py:118 | `'CN=' in dn`: holds if and only if the pattern occurs at some index. |
| PkiAuth.HeaderPresent | ozpcenter/auth/pkiauth.py:40-62 | Python's truth value of `META.get(name, None)`: the header is present and not the empty string. |
| PkiAuth.GatePasses | ozpcenter/auth/pkiauth.py:35-62 | The checks pass if and only if the request is secure, the status header is exactly `SUCCESS`, and the subject and issuer DN headers are each present and non-empty. |
| PkiAuth.ResolverDn | ozpcenter/auth/pkiauth.py:67-69 | With the flag off, the raw header is handed on. With it on, the DN has no `/` and no comma directly before a word character, and a DN without `/` only gets the spacing after commas. |
| Text.Lower | ozpcenter/auth/pkiauth.py:128 | `lower()`: same length, each character lowercased. |
| Text.NatToDecimal | ozpcenter/auth/pkiauth.py:134 | `str(n)` for `n >= 0`: a non-empty string of decimal digits with no leading zero unless `n` is 0. `DecimalRoundTrip` pins its value. |
| Text.IsWordChar | ozpcenter/auth/pkiauth.py:94 | The `[\w]` class, taken as ASCII `[A-Za-z0-9_]`: a word character is never a comma, a space or a `/`. |
| Text.DecimalRoundTrip | ozpcenter/auth/pkiauth.py:134 | Reading back the decimal digits `str(n)` produces gives `n`. |

## Left out

- Django's ORM, `settings.OZP` and `get_user_model` are modelled as an
  in-memory store of profiles, a set of usernames and an event log. The
  `PREPROCESS_DN` setting is a boolean parameter.
- Two `count()` queries are each modelled as a membership test: the query
  filtered by `username` (lines 130 and 138), because usernames are unique.
- Logging calls are left out. They have no effect on the result or the store.
- `profile.save()` is left out. The issuer update is the store write itself.
- `models.Profile.create_user` is modelled as adding one active account and
  one profile.
- `dispatcher.publish` is modelled as appending one event to a log.
  Subscribers are not part of this model.
- `Text.FindBetween`: the source of `utils.find_between` is not part of this
  model. It is modelled as the text after the first `CN=` up to the first
  following comma. When no comma follows, the model returns the rest of the
  DN. That branch is an assumption, and no lemma about the display name relies
  on it (`Profiles.DisplayNameOfTerminatedCn` covers the terminated case only).
- Profiles.SanitizeUsername: the character-by-character result is stated only
  for display names without apostrophes. When apostrophes are present, the
  contract states the shape of the result (length, no space, no apostrophe, no
  upper case), and `Text.RemoveChar` with `Text.RemoveCharConcat` states the
  dropping step.
- `Text.Lower` and `Profiles.SameDn`: lowercasing and `dn__iexact` use ASCII
  only. Unicode case mapping is not modelled, including the case where it
  changes a string's length.
- `DnNormalizer.SpaceAfterComma`: `\w` is taken as ASCII `[A-Za-z0-9_]`, not
  Python's Unicode word characters.
- Concurrent first logins for the same DN or the same username are not
  modelled. The source has no locking, and the database constraints decide
  that outcome.
- The default argument `issuer_dn='default issuer dn'` of
  `_get_profile_by_dn` is not modelled. `authenticate`, its caller in the
  same file, always passes the issuer DN.
- `tests/ozpcenter_api/test_api_listing_review.py` and
  `ozpcenter/api/contact_type/urls.py` contain no logic of this component.
