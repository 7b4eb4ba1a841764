/**
 The authorization gate (`asp-authz`, `asp-authz-policy`,
 `asp-authz-policy-any`): decides whether an element renders, consulting an
 authorization oracle at most once per policy name and request, and leaves
 a sentinel in the element's items when it suppresses the element.
 */
module Authz {
  import opened Wrappers
  import opened Html
  import Strings

  const AuthzAttributeName := "asp-authz"
  const PolicyAttributeName := "asp-authz-policy"
  const PolicyAnyAttributeName := "asp-authz-policy-any"

  /** The bound attributes; a null policy list is modelled as "", which the
      helper treats alike. */
  datatype AuthzOptions = AuthzOptions(
    requiresAuthentication: bool,
    requiredPolicy: string,
    requiredPolicyAny: string)

  /** How a policy list combines: every policy (AND) or some policy (OR). */
  datatype Mode = AllOf | AnyOf

  /** The per-request view-data cache of policy outcomes. */
  type Cache = map<string, bool>

  /** The view-data key under which a policy's outcome is cached. */
  function CacheKey(mode: Mode, policy: string): string {
    (if mode == AllOf then PolicyAttributeName else PolicyAnyAttributeName) + "." + policy
  }

  /** Distinct (mode, policy) pairs never share a cache entry: the two
      prefixes differ at their 17th character, '.' against '-'. */
  lemma CacheKeyInjective(m1: Mode, p1: string, m2: Mode, p2: string)
    ensures CacheKey(m1, p1) == CacheKey(m2, p2) <==> m1 == m2 && p1 == p2
  {
    var k1, k2 := CacheKey(m1, p1), CacheKey(m2, p2);
    if m1 != m2 {
      assert k1[16] != k2[16];
    } else if k1 == k2 {
      var n := |k1| - |p1|;
      assert p1 == k1[n..] == k2[n..] == p2;
    }
  }

  /** The names among comma-separated pieces: each piece trimmed, the
      empty ones dropped, the order kept. */
  function Names(pieces: seq<string>): (r: seq<string>)
    ensures forall x | x in r :: x != "" && Strings.IsTrimmed(x)
  {
    if pieces == [] then []
    else
      var t := Strings.Trim(pieces[0]);
      var rest := Names(pieces[1..]);
      if t == "" then rest else [t] + rest
  }

  /** Trimming brings in no comma. */
  lemma {:induction false} NamesCommaFree(pieces: seq<string>)
    requires forall i | 0 <= i < |pieces| :: ',' !in pieces[i]
    ensures forall x | x in Names(pieces) :: ',' !in x
  {
    if pieces != [] {
      NamesCommaFree(pieces[1..]);
      Strings.TrimKeepsChars(pieces[0]);
    }
  }

  /** `Split(',', RemoveEmptyEntries | TrimEntries)`: the policy names of a
      comma-separated list, each trimmed, the empty ones dropped. */
  function ParsePolicies(s: string): (r: seq<string>)
    ensures forall x | x in r :: x != "" && Strings.IsTrimmed(x) && ',' !in x
  {
    var pieces := Strings.Split(s, ',');
    NamesCommaFree(pieces);
    Names(pieces)
  }

  /** Proper names pass through unchanged. */
  lemma {:induction false} NamesKeepProperNames(ps: seq<string>)
    requires forall i | 0 <= i < |ps| :: ps[i] != "" && Strings.IsTrimmed(ps[i])
    ensures Names(ps) == ps
  {
    if ps != [] {
      Strings.TrimPreservesTrimmed(ps[0]);
      NamesKeepProperNames(ps[1..]);
      assert [ps[0]] + ps[1..] == ps;
    }
  }

  /** Blank pieces yield no name. */
  lemma {:induction false} NamesOfBlanks(pieces: seq<string>)
    requires forall i | 0 <= i < |pieces| :: Strings.IsEmptyOrWhiteSpace(pieces[i])
    ensures Names(pieces) == []
  {
    if pieces != [] {
      NamesOfBlanks(pieces[1..]);
    }
  }

  /** Parsing a comma-joined list of proper policy names gives back the
      names in their order: parsing keeps order and drops nothing real. */
  lemma ParseJoinedPolicies(ps: seq<string>)
    requires forall i | 0 <= i < |ps| :: ps[i] != "" && Strings.IsTrimmed(ps[i]) && ',' !in ps[i]
    ensures ParsePolicies(Strings.Join(ps, ',')) == ps
  {
    var joined := Strings.Join(ps, ',');
    if ps == [] {
      BlankListParsesEmpty(joined);
    } else {
      Strings.SplitJoin(ps, ',');
      NamesKeepProperNames(ps);
      assert ParsePolicies(joined) == Names(Strings.Split(joined, ','));
    }
  }

  /** A list made only of separators and blanks parses to no policy at all. */
  lemma BlankListParsesEmpty(s: string)
    requires forall i | 0 <= i < |s| :: s[i] == ',' || Strings.IsWhiteSpace(s[i])
    ensures ParsePolicies(s) == []
  {
    var pieces := Strings.Split(s, ',');
    Strings.JoinSplit(s, ',');
    forall i | 0 <= i < |pieces| ensures Strings.IsEmptyOrWhiteSpace(pieces[i]) {
      PieceOfBlankList(pieces, s, i);
    }
    NamesOfBlanks(pieces);
  }

  lemma {:induction false} PieceOfBlankList(pieces: seq<string>, s: string, i: int)
    requires 0 <= i < |pieces| && Strings.Join(pieces, ',') == s
    requires forall k | 0 <= k < |s| :: s[k] == ',' || Strings.IsWhiteSpace(s[k])
    requires forall k | 0 <= k < |pieces| :: ',' !in pieces[k]
    ensures Strings.IsEmptyOrWhiteSpace(pieces[i])
  {
    if |pieces| == 1 {
    } else if i == 0 {
      assert s == pieces[0] + [','] + Strings.Join(pieces[1..], ',');
      forall k | 0 <= k < |pieces[0]| ensures Strings.IsWhiteSpace(pieces[0][k]) {
        assert s[k] == pieces[0][k];
      }
    } else {
      var rest := Strings.Join(pieces[1..], ',');
      assert s == pieces[0] + [','] + rest;
      forall k | 0 <= k < |rest| ensures rest[k] == ',' || Strings.IsWhiteSpace(rest[k]) {
        assert rest[k] == s[|pieces[0]| + 1 + k];
      }
      PieceOfBlankList(pieces[1..], rest, i - 1);
    }
  }

  /** The outcome the helper acts on for one policy: the cached one when
      the key is present, otherwise the oracle's. */
  function Verdict(mode: Mode, cache: Cache, oracle: string -> bool, policy: string): bool {
    var k := CacheKey(mode, policy);
    if k in cache then cache[k] else oracle(policy)
  }

  /** The outcome that ends the loop: a refusal for AND, a grant for OR. */
  function Stops(mode: Mode, authorized: bool): bool {
    if mode == AllOf then !authorized else authorized
  }

  /** The cache keys of the first `n` policies. */
  function KeysOf(mode: Mode, policies: seq<string>, n: nat): set<string>
    requires n <= |policies|
  {
    if n == 0 then {} else KeysOf(mode, policies, n - 1) + {CacheKey(mode, policies[n - 1])}
  }

  /** A key of the first `n` policies is the key of one of them. */
  lemma {:induction false} KeysOfMember(mode: Mode, policies: seq<string>, n: nat, k: string)
    requires n <= |policies| && k in KeysOf(mode, policies, n)
    ensures exists i | 0 <= i < n :: k == CacheKey(mode, policies[i])
  {
    if k != CacheKey(mode, policies[n - 1]) {
      KeysOfMember(mode, policies, n - 1, k);
    }
  }

  /** After the first `n` policies: `cache` extends `cache0`, holds the
      outcome of each of them, and nothing more. */
  predicate CacheFaithful(mode: Mode, policies: seq<string>, cache0: Cache, oracle: string -> bool, cache: Cache, n: nat)
    requires n <= |policies|
  {
    && (forall k | k in cache0 :: k in cache && cache[k] == cache0[k])
    && (forall i | 0 <= i < n ::
          CacheKey(mode, policies[i]) in cache && cache[CacheKey(mode, policies[i])] == Verdict(mode, cache0, oracle, policies[i]))
    && cache.Keys == cache0.Keys + KeysOf(mode, policies, n)
  }

  /** `calls` are the policies whose outcome was added to `cache0` to give
      `cache`, each named once. */
  ghost predicate CallsFaithful(mode: Mode, cache0: Cache, cache: Cache, calls: seq<string>) {
    && (forall j, k | 0 <= j < k < |calls| :: calls[j] != calls[k])
    && (forall x | x in calls :: CacheKey(mode, x) in cache && CacheKey(mode, x) !in cache0)
    && (forall x | CacheKey(mode, x) in cache && CacheKey(mode, x) !in cache0 :: x in calls)
  }

  /** A cache hit during the loop yields the policy's outcome. */
  lemma HitStep(mode: Mode, policies: seq<string>, cache0: Cache, oracle: string -> bool, cache: Cache, n: nat)
    requires n < |policies| && CacheKey(mode, policies[n]) in cache
    requires CacheFaithful(mode, policies, cache0, oracle, cache, n)
    ensures cache[CacheKey(mode, policies[n])] == Verdict(mode, cache0, oracle, policies[n])
    ensures CacheFaithful(mode, policies, cache0, oracle, cache, n + 1)
  {
    var p := policies[n];
    var key := CacheKey(mode, p);
    if key !in cache0 {
      KeysOfMember(mode, policies, n, key);
      var i :| 0 <= i < n && key == CacheKey(mode, policies[i]);
      CacheKeyInjective(mode, p, mode, policies[i]);
    }
  }

  /** A cache miss during the loop is an oracle call on a name not called
      before; recording it keeps both records faithful. */
  lemma MissStep(mode: Mode, policies: seq<string>, cache0: Cache, oracle: string -> bool,
                 cache: Cache, calls: seq<string>, n: nat)
    requires n < |policies| && CacheKey(mode, policies[n]) !in cache
    requires CacheFaithful(mode, policies, cache0, oracle, cache, n)
    requires CallsFaithful(mode, cache0, cache, calls)
    ensures oracle(policies[n]) == Verdict(mode, cache0, oracle, policies[n])
    ensures policies[n] !in calls
    ensures CacheFaithful(mode, policies, cache0, oracle, cache[CacheKey(mode, policies[n]) := oracle(policies[n])], n + 1)
    ensures CallsFaithful(mode, cache0, cache[CacheKey(mode, policies[n]) := oracle(policies[n])], calls + [policies[n]])
  {
    var p := policies[n];
    var key := CacheKey(mode, p);
    var cache' := cache[key := oracle(p)];
    forall x | CacheKey(mode, x) in cache' && CacheKey(mode, x) !in cache0 ensures x in calls + [p] {
      CacheKeyInjective(mode, x, mode, p);
    }
  }

  /** None of the first `n` policies decides the list. */
  predicate Undecided(mode: Mode, policies: seq<string>, cache0: Cache, oracle: string -> bool, n: int)
    requires n <= |policies|
  {
    forall i | 0 <= i < n :: !Stops(mode, Verdict(mode, cache0, oracle, policies[i]))
  }

  /** A deciding outcome settles the list: an AND list is refused, an OR
      list granted. */
  lemma StopDecides(mode: Mode, policies: seq<string>, cache0: Cache, oracle: string -> bool, n: nat)
    requires n < |policies| && Stops(mode, Verdict(mode, cache0, oracle, policies[n]))
    ensures mode == AllOf ==> !(forall i | 0 <= i < |policies| :: Verdict(mode, cache0, oracle, policies[i]))
    ensures mode == AnyOf ==> exists i | 0 <= i < |policies| :: Verdict(mode, cache0, oracle, policies[i])
  {
  }

  /** Without a deciding outcome an AND list is granted and an OR list
      refused. */
  lemma NoStopDecides(mode: Mode, policies: seq<string>, cache0: Cache, oracle: string -> bool)
    requires Undecided(mode, policies, cache0, oracle, |policies|)
    ensures mode == AllOf ==> forall i | 0 <= i < |policies| :: Verdict(mode, cache0, oracle, policies[i])
    ensures mode == AnyOf ==> !exists i | 0 <= i < |policies| :: Verdict(mode, cache0, oracle, policies[i])
  {
  }

  /** Looks up one policy: the cached outcome on a hit; on a miss, the
      oracle's, which is then cached and the call recorded. */
  method Consult(mode: Mode, policies: seq<string>, cache0: Cache, oracle: string -> bool,
                 cache: Cache, calls: seq<string>, n: nat)
    returns (authorized: bool, cache': Cache, calls': seq<string>)
    requires n < |policies|
    requires CacheFaithful(mode, policies, cache0, oracle, cache, n)
    requires CallsFaithful(mode, cache0, cache, calls)
    ensures authorized == Verdict(mode, cache0, oracle, policies[n])
    ensures CacheKey(mode, policies[n]) in cache ==> cache' == cache && calls' == calls
    ensures CacheKey(mode, policies[n]) !in cache ==> calls' == calls + [policies[n]] && policies[n] !in calls
    ensures CacheFaithful(mode, policies, cache0, oracle, cache', n + 1)
    ensures CallsFaithful(mode, cache0, cache', calls')
  {
    var policy := policies[n];
    var key := CacheKey(mode, policy);
    if key in cache {
      HitStep(mode, policies, cache0, oracle, cache, n);
      authorized, cache', calls' := cache[key], cache, calls;
    } else {
      MissStep(mode, policies, cache0, oracle, cache, calls, n);
      authorized := oracle(policy);
      cache', calls' := cache[key := authorized], calls + [policy];
    }
  }

  /** The loop of `EvaluatePolicies`: consults the policies in order until
      one decides the list (`stopped`) or none is left. */
  method Scan(mode: Mode, policies: seq<string>, cache0: Cache, oracle: string -> bool)
    returns (cache: Cache, calls: seq<string>, examined: nat, stopped: bool)
    ensures examined <= |policies| && (!stopped ==> examined == |policies|)
    ensures Undecided(mode, policies, cache0, oracle, if stopped then examined - 1 else examined)
    ensures stopped ==> 0 < examined && Stops(mode, Verdict(mode, cache0, oracle, policies[examined - 1]))
    ensures CacheFaithful(mode, policies, cache0, oracle, cache, examined)
    ensures CallsFaithful(mode, cache0, cache, calls)
  {
    cache, calls, examined := cache0, [], 0;
    stopped := false;
    while examined < |policies| && !stopped
      invariant examined <= |policies|
      invariant Undecided(mode, policies, cache0, oracle, if stopped then examined - 1 else examined)
      invariant stopped ==> 0 < examined && Stops(mode, Verdict(mode, cache0, oracle, policies[examined - 1]))
      invariant CacheFaithful(mode, policies, cache0, oracle, cache, examined)
      invariant CallsFaithful(mode, cache0, cache, calls)
    {
      var authorized;
      authorized, cache, calls := Consult(mode, policies, cache0, oracle, cache, calls, examined);
      // the first deciding outcome ends the evaluation
      stopped := Stops(mode, authorized);
      examined := examined + 1;
    }
  }

  /** Evaluates a parsed policy list left to right, consulting the cache
      first and the oracle only on a miss, and stopping at the first
      outcome that decides the list. `calls` are the policies sent to the
      oracle, in order; `examined` is how many policies were looked at. */
  method EvaluatePolicies(mode: Mode, policies: seq<string>, cache0: Cache, oracle: string -> bool)
    returns (granted: bool, cache: Cache, calls: seq<string>, examined: nat)
    // the combined outcome
    ensures mode == AllOf ==> (granted <==> forall i | 0 <= i < |policies| :: Verdict(mode, cache0, oracle, policies[i]))
    ensures mode == AnyOf ==> (granted <==> exists i | 0 <= i < |policies| :: Verdict(mode, cache0, oracle, policies[i]))
    // short-circuit: only a prefix is examined, and it ends at the deciding policy
    ensures examined <= |policies|
    ensures Undecided(mode, policies, cache0, oracle, examined - 1)
    ensures examined < |policies| ==> 0 < examined && Stops(mode, Verdict(mode, cache0, oracle, policies[examined - 1]))
    // the cache keeps its entries and gains one per examined policy, nothing else
    ensures CacheFaithful(mode, policies, cache0, oracle, cache, examined)
    // the oracle is asked only on misses, at most once per name
    ensures CallsFaithful(mode, cache0, cache, calls)
  {
    var stopped;
    cache, calls, examined, stopped := Scan(mode, policies, cache0, oracle);
    if stopped {
      StopDecides(mode, policies, cache0, oracle, examined - 1);
      granted := mode == AnyOf;
    } else {
      NoStopDecides(mode, policies, cache0, oracle);
      granted := mode == AllOf;
    }
  }

  /** Every policy sent to the oracle is in the list, and the cache gains
      exactly the keys of those policies. */
  lemma CallsWithinList(mode: Mode, policies: seq<string>, cache0: Cache, oracle: string -> bool,
                        cache: Cache, calls: seq<string>, n: nat)
    requires n <= |policies|
    requires CacheFaithful(mode, policies, cache0, oracle, cache, n)
    requires CallsFaithful(mode, cache0, cache, calls)
    ensures forall x | x in calls :: x in policies[..n]
    ensures forall x | x in calls :: CacheKey(mode, x) in cache && cache[CacheKey(mode, x)] == oracle(x)
    ensures cache.Keys == cache0.Keys + (set x | x in calls :: CacheKey(mode, x))
  {
    forall x | x in calls ensures x in policies[..n] && cache[CacheKey(mode, x)] == oracle(x) {
      KeysOfMember(mode, policies, n, CacheKey(mode, x));
      var i :| 0 <= i < n && CacheKey(mode, x) == CacheKey(mode, policies[i]);
      CacheKeyInjective(mode, x, mode, policies[i]);
      assert policies[..n][i] == x;
    }
    forall k | k in cache && k !in cache0 ensures k in (set x | x in calls :: CacheKey(mode, x)) {
      KeysOfMember(mode, policies, n, k);
      var i :| 0 <= i < n && k == CacheKey(mode, policies[i]);
      assert policies[i] in calls;
    }
  }

  /** Every name in `calls` occurs in `policies` at a position that no
      earlier policy decides. */
  predicate SentBeforeDecision(mode: Mode, policies: seq<string>, cache0: Cache, oracle: string -> bool,
                               calls: seq<string>) {
    forall x | x in calls :: exists i | 0 <= i < |policies| ::
      policies[i] == x && Undecided(mode, policies, cache0, oracle, i)
  }

  /** Every name sent was examined before the deciding policy, or was it. */
  lemma CallsBeforeDecision(mode: Mode, policies: seq<string>, cache0: Cache, oracle: string -> bool,
                            calls: seq<string>, examined: nat)
    requires examined <= |policies| && Undecided(mode, policies, cache0, oracle, examined - 1)
    requires forall x | x in calls :: x in policies[..examined]
    ensures SentBeforeDecision(mode, policies, cache0, oracle, calls)
  {
    forall x | x in calls
      ensures exists i | 0 <= i < |policies| :: policies[i] == x && Undecided(mode, policies, cache0, oracle, i)
    {
      var i :| 0 <= i < examined && policies[..examined][i] == x;
      assert policies[i] == x && Undecided(mode, policies, cache0, oracle, i);
    }
  }

  /** Parses one attribute's policy list and evaluates it against the
      view-data cache. */
  method EvaluateList(mode: Mode, list: string, viewData: Cache, oracle: string -> bool)
    returns (granted: bool, viewData': Cache, calls: seq<string>)
    ensures mode == AllOf ==> (granted <==> forall i | 0 <= i < |ParsePolicies(list)| :: Verdict(mode, viewData, oracle, ParsePolicies(list)[i]))
    ensures mode == AnyOf ==> (granted <==> exists i | 0 <= i < |ParsePolicies(list)| :: Verdict(mode, viewData, oracle, ParsePolicies(list)[i]))
    ensures forall k | k in viewData :: k in viewData' && viewData'[k] == viewData[k]
    ensures forall x | x in calls :: x in ParsePolicies(list) && CacheKey(mode, x) !in viewData
    // each name sent has the oracle's answer recorded under its key
    ensures forall x | x in calls :: CacheKey(mode, x) in viewData' && viewData'[CacheKey(mode, x)] == oracle(x)
    ensures SentBeforeDecision(mode, ParsePolicies(list), viewData, oracle, calls)
    ensures forall j, k | 0 <= j < k < |calls| :: calls[j] != calls[k]
    ensures viewData'.Keys == viewData.Keys + (set x | x in calls :: CacheKey(mode, x))
    // every policy reached before the decision is looked at: a miss is sent and its answer cached
    ensures ReachedAreCached(mode, ParsePolicies(list), viewData, oracle, viewData', calls)
  {
    var policies := ParsePolicies(list);
    var examined;
    granted, viewData', calls, examined := EvaluatePolicies(mode, policies, viewData, oracle);
    CallsWithinList(mode, policies, viewData, oracle, viewData', calls, examined);
    CallsBeforeDecision(mode, policies, viewData, oracle, calls, examined);
    ReachedWereExamined(mode, policies, viewData, oracle, viewData', calls, examined);
  }

  /** Each policy that no earlier policy decides holds its outcome in
      `cache`, and when it was a miss in `cache0` it is among `calls`. */
  predicate ReachedAreCached(mode: Mode, policies: seq<string>, cache0: Cache, oracle: string -> bool,
                             cache: Cache, calls: seq<string>) {
    forall i | 0 <= i < |policies| && Undecided(mode, policies, cache0, oracle, i) ::
      && CacheKey(mode, policies[i]) in cache
      && cache[CacheKey(mode, policies[i])] == Verdict(mode, cache0, oracle, policies[i])
      && (CacheKey(mode, policies[i]) !in cache0 ==> policies[i] in calls)
  }

  /** The loop reaches every policy before the deciding one. */
  lemma ReachedWereExamined(mode: Mode, policies: seq<string>, cache0: Cache, oracle: string -> bool,
                            cache: Cache, calls: seq<string>, examined: nat)
    requires examined <= |policies|
    requires examined < |policies| ==> 0 < examined && Stops(mode, Verdict(mode, cache0, oracle, policies[examined - 1]))
    requires CacheFaithful(mode, policies, cache0, oracle, cache, examined)
    requires CallsFaithful(mode, cache0, cache, calls)
    ensures ReachedAreCached(mode, policies, cache0, oracle, cache, calls)
  {
    forall i | 0 <= i < |policies| && Undecided(mode, policies, cache0, oracle, i)
      ensures i < examined
    {
    }
  }

  /** Whether the policy lists or `asp-authz` make authentication necessary. */
  predicate RequiresAuth(o: AuthzOptions) {
    o.requiresAuthentication || o.requiredPolicy != "" || o.requiredPolicyAny != ""
  }

  /** `asp-authz` is written on the element, nothing requires
      authentication, and the user is anonymous. */
  predicate AnonymousAllowed(e: Element, o: AuthzOptions, authenticated: bool) {
    HasAttr(e.allAttrs, AuthzAttributeName) && !RequiresAuth(o) && !authenticated
  }

  /** The policy list that decides, if any, and how it combines. */
  function DecidingList(e: Element, o: AuthzOptions, authenticated: bool): Option<(Mode, string)> {
    if AnonymousAllowed(e, o, authenticated) then None
    else if o.requiredPolicy != "" then Some((AllOf, o.requiredPolicy))
    else if o.requiredPolicyAny != "" then Some((AnyOf, o.requiredPolicyAny))
    else None
  }

  /** Whether the element renders, stated rule by rule in the order the
      helper tries them. */
  predicate Shows(e: Element, o: AuthzOptions, authenticated: bool, cache: Cache, oracle: string -> bool) {
    if AnonymousAllowed(e, o, authenticated) then true
    else if o.requiredPolicy != "" then
      var ps := ParsePolicies(o.requiredPolicy);
      forall i | 0 <= i < |ps| :: Verdict(AllOf, cache, oracle, ps[i])
    else if o.requiredPolicyAny != "" then
      var ps := ParsePolicies(o.requiredPolicyAny);
      exists i | 0 <= i < |ps| :: Verdict(AnyOf, cache, oracle, ps[i])
    else RequiresAuth(o) && authenticated
  }

  /** The element with its output suppressed and the sentinel recorded. */
  function MarkSuppressed(e: Element): (r: Element)
    ensures SuppressedByAspAuthz(r)
  {
    SuppressOutput(e).(items := e.items[AuthzSuppressedKey := AuthzSuppressedValue])
  }

  /** `AuthzTagHelper.ProcessAsync`. Returns the rewritten element, the
      view-data cache afterwards and the policies sent to the oracle. */
  method Process(e: Element, o: AuthzOptions, authenticated: bool, oracle: string -> bool, viewData: Cache)
    returns (r: Element, viewData': Cache, calls: seq<string>)
    // an element already suppressed is left alone
    ensures Suppressed(e) ==> r == e && viewData' == viewData && calls == []
    // otherwise it renders exactly when the rules say so
    ensures !Suppressed(e) && Shows(e, o, authenticated, viewData, oracle) ==> r == e
    ensures !Suppressed(e) && !Shows(e, o, authenticated, viewData, oracle) ==>
              && r.tag == None && r.content == Some([]) && r.postContent == []
              && r.items == e.items[AuthzSuppressedKey := AuthzSuppressedValue]
              && SuppressedByAspAuthz(r)
              && r.attrs == e.attrs && r.allAttrs == e.allAttrs && r.child == e.child
              && r.suppressedByIf == e.suppressedByIf
    // the cache and the oracle are only touched by the deciding list
    ensures forall k | k in viewData :: k in viewData' && viewData'[k] == viewData[k]
    ensures Suppressed(e) || DecidingList(e, o, authenticated).None? ==> viewData' == viewData && calls == []
    ensures !Suppressed(e) && DecidingList(e, o, authenticated).Some? ==>
              var (mode, list) := DecidingList(e, o, authenticated).value;
              && (forall x | x in calls :: x in ParsePolicies(list) && CacheKey(mode, x) !in viewData)
              && (forall x | x in calls :: CacheKey(mode, x) in viewData' && viewData'[CacheKey(mode, x)] == oracle(x))
              // short-circuit: no name after the first deciding policy is sent
              && SentBeforeDecision(mode, ParsePolicies(list), viewData, oracle, calls)
              && (forall j, k | 0 <= j < k < |calls| :: calls[j] != calls[k])
              && viewData'.Keys == viewData.Keys + (set x | x in calls :: CacheKey(mode, x))
              // every policy reached is looked at: a miss is sent and its answer cached
              && ReachedAreCached(mode, ParsePolicies(list), viewData, oracle, viewData', calls)
  {
    if Suppressed(e) {
      return e, viewData, [];
    }
    var showOutput := false;
    viewData', calls := viewData, [];
    match DecidingList(e, o, authenticated) {
      case None =>
        showOutput := AnonymousAllowed(e, o, authenticated) || (RequiresAuth(o) && authenticated);
      case Some((mode, list)) =>
        showOutput, viewData', calls := EvaluateList(mode, list, viewData, oracle);
    }
    if showOutput {
      r := e;
    } else {
      r := MarkSuppressed(e);
    }
  }

  /** A non-empty AND list decides alone: `asp-authz-policy-any` and
      whether the user is authenticated make no difference. */
  lemma AllListTakesPrecedence(e: Element, o: AuthzOptions, any: string, requiresAuthentication: bool,
                               a1: bool, a2: bool, cache: Cache, oracle: string -> bool)
    requires o.requiredPolicy != ""
    ensures Shows(e, o, a1, cache, oracle)
         == Shows(e, o.(requiredPolicyAny := any, requiresAuthentication := requiresAuthentication), a2, cache, oracle)
  {
  }

  /** With no policies, `asp-authz="false"` shows the element exactly to
      anonymous users and `asp-authz="true"` exactly to authenticated ones;
      with neither it is never shown. */
  lemma NoPolicyRules(e: Element, o: AuthzOptions, authenticated: bool, cache: Cache, oracle: string -> bool)
    requires o.requiredPolicy == "" && o.requiredPolicyAny == ""
    ensures HasAttr(e.allAttrs, AuthzAttributeName) && !o.requiresAuthentication ==>
              (Shows(e, o, authenticated, cache, oracle) <==> !authenticated)
    ensures o.requiresAuthentication ==> (Shows(e, o, authenticated, cache, oracle) <==> authenticated)
    ensures !HasAttr(e.allAttrs, AuthzAttributeName) && !o.requiresAuthentication ==>
              !Shows(e, o, authenticated, cache, oracle)
  {
  }

  /** With an empty cache the lists mean what they say: AND shows the
      element iff every listed policy is authorized, OR iff some is. */
  lemma FreshCacheMeaning(e: Element, o: AuthzOptions, authenticated: bool, oracle: string -> bool)
    ensures o.requiredPolicy != "" ==>
              (Shows(e, o, authenticated, map[], oracle) <==> forall p | p in ParsePolicies(o.requiredPolicy) :: oracle(p))
    ensures o.requiredPolicy == "" && o.requiredPolicyAny != "" ==>
              (Shows(e, o, authenticated, map[], oracle) <==> exists p | p in ParsePolicies(o.requiredPolicyAny) :: oracle(p))
  {
    if o.requiredPolicy != "" {
      FreshListMeaning(AllOf, ParsePolicies(o.requiredPolicy), oracle);
    } else if o.requiredPolicyAny != "" {
      FreshListMeaning(AnyOf, ParsePolicies(o.requiredPolicyAny), oracle);
    }
  }

  /** With an empty cache every verdict is the oracle's. */
  lemma FreshListMeaning(mode: Mode, ps: seq<string>, oracle: string -> bool)
    ensures (forall i | 0 <= i < |ps| :: Verdict(mode, map[], oracle, ps[i])) <==> (forall p | p in ps :: oracle(p))
    ensures (exists i | 0 <= i < |ps| :: Verdict(mode, map[], oracle, ps[i])) <==> (exists p | p in ps :: oracle(p))
  {
    if exists p | p in ps :: oracle(p) {
      var p :| p in ps && oracle(p);
      var i :| 0 <= i < |ps| && ps[i] == p;
      assert Verdict(mode, map[], oracle, ps[i]);
    }
    if forall i | 0 <= i < |ps| :: Verdict(mode, map[], oracle, ps[i]) {
      forall p | p in ps ensures oracle(p) {
        var i :| 0 <= i < |ps| && ps[i] == p;
        assert Verdict(mode, map[], oracle, ps[i]);
      }
    }
  }

  /** A list that is written but names no policy: only separators and
      white space, such as "," or " , ". */
  predicate BlankList(s: string) {
    s != "" && forall i | 0 <= i < |s| :: s[i] == ',' || Strings.IsWhiteSpace(s[i])
  }

  /** An AND list with no names in it shows the element to everyone; an OR
      list with no names hides it from everyone. */
  lemma BlankListsAreVacuous(e: Element, o: AuthzOptions, authenticated: bool, cache: Cache, oracle: string -> bool)
    requires BlankList(o.requiredPolicy) || (o.requiredPolicy == "" && BlankList(o.requiredPolicyAny))
    ensures Shows(e, o, authenticated, cache, oracle) <==> o.requiredPolicy != ""
  {
    if o.requiredPolicy != "" {
      BlankListParsesEmpty(o.requiredPolicy);
    } else {
      BlankListParsesEmpty(o.requiredPolicyAny);
    }
  }
}
