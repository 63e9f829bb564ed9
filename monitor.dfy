/**
 * The run loop of `main` (monitor.py): classify every configured product,
 * record its availability under `name + "-" + url`, and attempt a
 * notification exactly when a product went from not available to available.
 *
 * The outside world enters as data: `fetches[i]` is what fetching product i
 * produced, `transport[i]` whether the SMTP exchange for product i would
 * succeed (consulted only when a notification is attempted), `env` the
 * process environment and `stored` the status file found at start.
 */
module Monitor {
  import opened Wrappers
  import opened Classifier
  import opened Notifier
  import opened StatusStore

  /** One entry of the product list. The selector is passed through to the
      page query, which is outside the model. */
  datatype Product = Product(name: string, url: string, selector: string, keywords: seq<string>)

  /** The product list `main` ships with. */
  const ConfiguredProducts: seq<Product> := [
    Product("iPhone 15 Pro", "https://www.apple.com/iphone-15-pro/", ".rf-pdp-buybox",
            ["buy", "add to bag", "available"]),
    Product("PlayStation 5", "https://www.bestbuy.com/site/sony-playstation-5-console/6426149.p",
            ".fulfillment-add-to-cart-button", ["add to cart", "available"])
  ]

  /** The status-map key of a product: its name, a dash, then its URL. The
      selector and keywords play no part. */
  function Key(p: Product): (k: string)
    ensures |k| == |p.name| + 1 + |p.url|
    ensures k[..|p.name|] == p.name && k[|p.name|] == '-' && k[|p.name| + 1..] == p.url
  {
    p.name + "-" + p.url
  }

  /** Keys can collide for products that differ in name and URL, when a
      dash in one moves into the other. */
  lemma KeysCanCollide(selector: string, keywords: seq<string>)
    ensures Key(Product("a-b", "c", selector, keywords)) == Key(Product("a", "b-c", selector, keywords))
  {
  }

  /** `previous_status.get(key, False)` */
  predicate WasAvailable(previous: map<string, bool>, key: string) {
    key in previous && previous[key]
  }

  /** The one case that calls for a notification: available now and not
      recorded as available before. */
  predicate BecameAvailable(previous: map<string, bool>, key: string, available: bool) {
    available && !WasAvailable(previous, key)
  }

  function Keys(products: seq<Product>): seq<string> {
    seq(|products|, i requires 0 <= i < |products| => Key(products[i]))
  }

  function Availability(products: seq<Product>, fetches: seq<FetchOutcome>): seq<bool>
    requires |fetches| == |products|
  {
    seq(|products|, i requires 0 <= i < |products| => Classify(fetches[i], products[i].keywords).available)
  }

  /** No later product in the first `n` has the same key as product `i`. */
  predicate LastWithKey(keys: seq<string>, i: nat, n: nat)
    requires i < n <= |keys|
  {
    forall j :: i < j < n ==> keys[j] != keys[i]
  }

  /** `current_status` after the first `n` products: each iteration sets
      the product's key to its availability. */
  function StatusUpTo(keys: seq<string>, avail: seq<bool>, n: nat): map<string, bool>
    requires |avail| == |keys| && n <= |keys|
  {
    if n == 0 then map[] else StatusUpTo(keys, avail, n - 1)[keys[n - 1] := avail[n - 1]]
  }

  /** The status map's keys are exactly the keys of the products checked
      (nothing is carried over from the previous run), and each key holds the
      availability of the last product with that key. */
  lemma {:induction false} StatusUpToContents(keys: seq<string>, avail: seq<bool>, n: nat)
    requires |avail| == |keys| && n <= |keys|
    ensures StatusUpTo(keys, avail, n).Keys == set i | 0 <= i < n :: keys[i]
    ensures forall i :: 0 <= i < n && LastWithKey(keys, i, n) ==> StatusUpTo(keys, avail, n)[keys[i]] == avail[i]
  {
    if n > 0 {
      StatusUpToContents(keys, avail, n - 1);
      var before := StatusUpTo(keys, avail, n - 1);
      assert StatusUpTo(keys, avail, n) == before[keys[n - 1] := avail[n - 1]];
      assert (set i | 0 <= i < n :: keys[i]) == (set i | 0 <= i < n - 1 :: keys[i]) + {keys[n - 1]};
      forall i | 0 <= i < n && LastWithKey(keys, i, n)
        ensures StatusUpTo(keys, avail, n)[keys[i]] == avail[i]
      {
        if i < n - 1 {
          assert LastWithKey(keys, i, n - 1);
          assert keys[n - 1] != keys[i];
        }
      }
    }
  }

  /** The products, in order, for which the first `n` iterations attempt a
      notification. */
  function AttemptsUpTo(previous: map<string, bool>, keys: seq<string>, avail: seq<bool>, n: nat): seq<nat>
    requires |avail| == |keys| && n <= |keys|
  {
    if n == 0 then []
    else
      var r := AttemptsUpTo(previous, keys, avail, n - 1);
      if BecameAvailable(previous, keys[n - 1], avail[n - 1]) then r + [n - 1] else r
  }

  /** A notification is attempted for a product exactly when it became
      available: available now, and not recorded as available before (a key
      missing from the previous status counts as not available). Attempts
      follow product order, so there is at most one per product. */
  lemma {:induction false} AttemptsAreTransitions(previous: map<string, bool>, keys: seq<string>, avail: seq<bool>, n: nat)
    requires |avail| == |keys| && n <= |keys|
    ensures forall i :: i in AttemptsUpTo(previous, keys, avail, n) <==>
      0 <= i < n && avail[i] && !(keys[i] in previous && previous[keys[i]])
    ensures forall a, b :: 0 <= a < b < |AttemptsUpTo(previous, keys, avail, n)| ==>
      AttemptsUpTo(previous, keys, avail, n)[a] < AttemptsUpTo(previous, keys, avail, n)[b]
    ensures |AttemptsUpTo(previous, keys, avail, n)| <= n
    ensures AttemptsUpTo(previous, keys, avail, n) == [] <==>
      forall i :: 0 <= i < n ==> !BecameAvailable(previous, keys[i], avail[i])
  {
    if n > 0 {
      AttemptsAreTransitions(previous, keys, avail, n - 1);
      var r := AttemptsUpTo(previous, keys, avail, n - 1);
      assert forall a :: 0 <= a < |r| ==> r[a] in r;
    }
  }

  /** `notifications_sent` after the first `n` products: one for each
      attempt whose send succeeded. */
  function SentUpTo(previous: map<string, bool>, keys: seq<string>, avail: seq<bool>,
                    env: Environment, transport: seq<bool>, n: nat): nat
    requires |avail| == |keys| && |transport| == |keys| && n <= |keys|
  {
    if n == 0 then 0
    else
      var sent := SentUpTo(previous, keys, avail, env, transport, n - 1);
      if BecameAvailable(previous, keys[n - 1], avail[n - 1]) && SendEmail(env, transport[n - 1])
      then sent + 1 else sent
  }

  /** Notifications sent never exceed the attempts, which never exceed the
      products; none are sent without credentials; all attempts succeed when
      credentials are set and every transport exchange succeeds. */
  lemma {:induction false} SentBounds(previous: map<string, bool>, keys: seq<string>, avail: seq<bool>,
                                      env: Environment, transport: seq<bool>, n: nat)
    requires |avail| == |keys| && |transport| == |keys| && n <= |keys|
    ensures SentUpTo(previous, keys, avail, env, transport, n) <= |AttemptsUpTo(previous, keys, avail, n)| <= n
    ensures Credentials(env).None? ==> SentUpTo(previous, keys, avail, env, transport, n) == 0
    ensures Credentials(env).Some? && (forall i :: 0 <= i < n ==> transport[i]) ==>
      SentUpTo(previous, keys, avail, env, transport, n) == |AttemptsUpTo(previous, keys, avail, n)|
  {
    if n > 0 {
      SentBounds(previous, keys, avail, env, transport, n - 1);
    }
  }

  /** One iteration of the loop: how the status map, the attempts and the
      sent count after `i + 1` products follow from those after `i`. */
  lemma LoopStep(previous: map<string, bool>, keys: seq<string>, avail: seq<bool>,
                 env: Environment, transport: seq<bool>, i: nat)
    requires |avail| == |keys| && |transport| == |keys| && i < |keys|
    ensures StatusUpTo(keys, avail, i + 1) == StatusUpTo(keys, avail, i)[keys[i] := avail[i]]
    ensures AttemptsUpTo(previous, keys, avail, i + 1) ==
      if BecameAvailable(previous, keys[i], avail[i]) then AttemptsUpTo(previous, keys, avail, i) + [i]
      else AttemptsUpTo(previous, keys, avail, i)
    ensures SentUpTo(previous, keys, avail, env, transport, i + 1) ==
      SentUpTo(previous, keys, avail, env, transport, i) +
      (if BecameAvailable(previous, keys[i], avail[i]) && SendEmail(env, transport[i]) then 1 else 0)
  {
  }

  /** One run of `main` from loading the status file to saving it. Returns
      the in-memory status map, the file after saving, the products a
      notification was attempted for, in order, and the number of
      notifications sent. */
  method RunMonitor(stored: StatusFile, products: seq<Product>, fetches: seq<FetchOutcome>,
                    env: Environment, transport: seq<bool>, saveOutcome: SaveOutcome)
    returns (current: map<string, bool>, saved: StatusFile, attempts: seq<nat>, sent: nat)
    requires |fetches| == |products| && |transport| == |products|
    ensures current == StatusUpTo(Keys(products), Availability(products, fetches), |products|)
    ensures attempts == AttemptsUpTo(Load(stored), Keys(products), Availability(products, fetches), |products|)
    ensures sent == SentUpTo(Load(stored), Keys(products), Availability(products, fetches), env, transport, |products|)
    ensures saved == Save(stored, current, saveOutcome)
    ensures sent <= |attempts| <= |products|
    ensures Credentials(env).None? ==> sent == 0
  {
    ghost var keys, avail := Keys(products), Availability(products, fetches);
    var previous := Load(stored);
    current := map[];
    attempts := [];
    sent := 0;
    for i := 0 to |products|
      invariant current == StatusUpTo(keys, avail, i)
      invariant attempts == AttemptsUpTo(previous, keys, avail, i)
      invariant sent == SentUpTo(previous, keys, avail, env, transport, i)
    {
      var product := products[i];
      var result := Classify(fetches[i], product.keywords);
      var key := Key(product);
      assert key == keys[i] && result.available == avail[i];
      LoopStep(previous, keys, avail, env, transport, i);
      current := current[key := result.available];
      var wasAvailable := WasAvailable(previous, key);
      if result.available && !wasAvailable {
        attempts := attempts + [i];
        var ok := SendEmail(env, transport[i]);
        if ok {
          sent := sent + 1;
        }
      }
    }
    saved := Save(stored, current, saveOutcome);
    SentBounds(previous, keys, avail, env, transport, |products|);
  }

  /** Products with the same key agree on availability in this run (true
      when keys are distinct, as in the shipped product list). */
  predicate ConsistentKeys(keys: seq<string>, avail: seq<bool>)
    requires |avail| == |keys|
  {
    forall i, j :: 0 <= i < |keys| && 0 <= j < |keys| && keys[i] == keys[j] ==> avail[i] == avail[j]
  }

  /** No two products share a key. */
  predicate DistinctKeys(keys: seq<string>) {
    forall i, j :: 0 <= i < j < |keys| ==> keys[i] != keys[j]
  }

  /** The shipped products have distinct keys, so whatever the pages say,
      their availabilities are consistent. */
  lemma ConfiguredKeysDistinct(avail: seq<bool>)
    requires |avail| == |ConfiguredProducts|
    ensures DistinctKeys(Keys(ConfiguredProducts))
    ensures ConsistentKeys(Keys(ConfiguredProducts), avail)
  {
  }

  /** With consistent keys, the saved map holds every product's own
      availability. */
  lemma {:induction false} StatusUnderConsistentKeys(keys: seq<string>, avail: seq<bool>, n: nat)
    requires |avail| == |keys| && n <= |keys|
    requires ConsistentKeys(keys, avail)
    ensures forall i :: 0 <= i < n ==> keys[i] in StatusUpTo(keys, avail, n) && StatusUpTo(keys, avail, n)[keys[i]] == avail[i]
  {
    StatusUpToContents(keys, avail, n);
    if n > 0 {
      StatusUnderConsistentKeys(keys, avail, n - 1);
      StatusUpToContents(keys, avail, n - 1);
      var before := StatusUpTo(keys, avail, n - 1);
      assert StatusUpTo(keys, avail, n) == before[keys[n - 1] := avail[n - 1]];
      forall i | 0 <= i < n
        ensures keys[i] in StatusUpTo(keys, avail, n) && StatusUpTo(keys, avail, n)[keys[i]] == avail[i]
      {
        assert keys[i] in StatusUpTo(keys, avail, n);
        if keys[i] == keys[n - 1] {
          assert avail[i] == avail[n - 1];
        } else {
          assert keys[i] in before && before[keys[i]] == avail[i];
        }
      }
    }
  }

  /** Re-running with the status map the last run produced, and the same
      results, attempts no notification when products that share a key
      agree on availability. */
  lemma RepeatedRunIsQuiet(keys: seq<string>, avail: seq<bool>)
    requires |avail| == |keys|
    requires ConsistentKeys(keys, avail)
    ensures AttemptsUpTo(StatusUpTo(keys, avail, |keys|), keys, avail, |keys|) == []
  {
    StatusUnderConsistentKeys(keys, avail, |keys|);
    AttemptsAreTransitions(StatusUpTo(keys, avail, |keys|), keys, avail, |keys|);
  }

  /** Across two runs through the status file: after a run whose save
      succeeded, a run seeing the same pages attempts and sends nothing when
      products that share a key agree on availability. */
  lemma SecondRunSendsNothing(stored: StatusFile, products: seq<Product>, fetches: seq<FetchOutcome>,
                              env: Environment, transport: seq<bool>)
    requires |fetches| == |products| && |transport| == |products|
    requires ConsistentKeys(Keys(products), Availability(products, fetches))
    ensures var keys, avail := Keys(products), Availability(products, fetches);
      var saved := Save(stored, StatusUpTo(keys, avail, |products|), Written);
      AttemptsUpTo(Load(saved), keys, avail, |products|) == [] &&
      SentUpTo(Load(saved), keys, avail, env, transport, |products|) == 0
  {
    var keys, avail := Keys(products), Availability(products, fetches);
    RepeatedRunIsQuiet(keys, avail);
    var saved := Save(stored, StatusUpTo(keys, avail, |products|), Written);
    SentBounds(Load(saved), keys, avail, env, transport, |products|);
  }

  /** The exact condition for a quiet repeated run: every product found
      available has its key saved as available. Products sharing a key break
      it only when a later one is unavailable after an earlier available one. */
  lemma RepeatedRunQuietIff(keys: seq<string>, avail: seq<bool>)
    requires |avail| == |keys|
    ensures var saved := StatusUpTo(keys, avail, |keys|);
      AttemptsUpTo(saved, keys, avail, |keys|) == [] <==>
      forall i :: 0 <= i < |keys| && avail[i] ==> keys[i] in saved && saved[keys[i]]
  {
    var saved := StatusUpTo(keys, avail, |keys|);
    StatusUpToContents(keys, avail, |keys|);
    AttemptsAreTransitions(saved, keys, avail, |keys|);
    assert forall i :: 0 <= i < |keys| ==> keys[i] in saved;
  }

  /** Products that share a key and disagree can make the repeated run
      notify again: the first available and the second not save `false`
      for the key, so the next identical run notifies for the first again. */
  lemma DuplicateKeyNotifiesAgain()
    ensures var keys, avail := ["P-url", "P-url"], [true, false];
      StatusUpTo(keys, avail, 2) == map["P-url" := false] &&
      AttemptsUpTo(StatusUpTo(keys, avail, 2), keys, avail, 2) == [0]
  {
    var keys, avail := ["P-url", "P-url"], [true, false];
    assert StatusUpTo(keys, avail, 1) == map["P-url" := true];
    var saved := StatusUpTo(keys, avail, 2);
    assert saved == map["P-url" := false];
    assert AttemptsUpTo(saved, keys, avail, 1) == [0];
  }

  /** A missing or unreadable status file (also what a save that failed
      after opening leaves) treats every product as previously unavailable:
      every available product gets a notification attempt. */
  lemma FailOpenOnLostStatus(stored: StatusFile, keys: seq<string>, avail: seq<bool>)
    requires !stored.Stored?
    requires |avail| == |keys|
    ensures forall i :: i in AttemptsUpTo(Load(stored), keys, avail, |keys|) <==> 0 <= i < |keys| && avail[i]
  {
    AttemptsAreTransitions(Load(stored), keys, avail, |keys|);
  }

  /** The worked run: previous status `{"P-url": false}`, product P at `url`
      now available; one notification is attempted and `{"P-url": true}`
      is saved. */
  lemma BecameAvailableScenario(keywords: seq<string>, raw: string)
    requires Classify(Fetched(Some(raw)), keywords).available
    ensures var products := [Product("P", "url", ".buy", keywords)];
      var fetches := [Fetched(Some(raw))];
      var keys, avail := Keys(products), Availability(products, fetches);
      StatusUpTo(keys, avail, 1) == map["P-url" := true] &&
      AttemptsUpTo(map["P-url" := false], keys, avail, 1) == [0]
  {
    var products := [Product("P", "url", ".buy", keywords)];
    assert Key(products[0]) == "P-url";
    assert Keys(products) == ["P-url"];
  }
}
