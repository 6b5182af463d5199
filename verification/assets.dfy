/**
 * Asset reconciliation and upload (src/api/assets.ts).
 *
 * The remote service is not modelled as code: every remote call is a
 * function-typed parameter that gives the service's answer to one request
 * (`None` is a failed request), and the asset listing is passed in as the
 * settled result of `listAssetResources`. The creation fan-out that the source
 * runs under `Promise.all` is modelled as a sequential pass over the assets to
 * create: every creation call is issued, and the error reported is the first
 * failure in list order.
 */
module Assets {
  import opened Wrappers
  import opened Subsequences

  type Sid = string

  /** The `access` field of an asset; only Public and Private can be uploaded. */
  datatype Access = Public | Private | Protected

  /** A locally described asset (a `ServerlessResourceConfig`). */
  datatype AssetConfig = AssetConfig(
    name: string,
    path: string,
    access: Access,
    content: string,
    filePath: Option<string>)

  /** A local asset with the sid of its remote counterpart attached (`{...asset, sid}`). */
  datatype AssetResource = AssetResource(config: AssetConfig, sid: Sid)

  /** The part of a listed remote asset that reconciliation reads. */
  datatype AssetApiResource = AssetApiResource(sid: Sid, friendlyName: string)

  /** The errors the asset operations throw. */
  datatype AssetError =
    | ListFailed(cause: string)      // listing error, re-thrown unchanged
    | CreateFailed(name: string)     // wrapped failure of one creation call
    | ProtectedAccess(name: string)  // rejected before any request
    | UploadFailed                   // wrapped failure of the version upload

  /**
   * The error message the caller sees: a listing error unchanged, the other
   * kinds under their own fixed wording, so an upload failure is never
   * mistaken for a creation or access failure.
   */
  function Message(e: AssetError): (m: string)
    ensures e.ListFailed? ==> m == e.cause
    ensures e.CreateFailed? ==> "Failed to create \"" <= m
    ensures e.ProtectedAccess? ==> "Asset " <= m
    ensures !e.ListFailed? ==> (m == "Failed to upload Asset" <==> e.UploadFailed?)
  {
    match e
    case ListFailed(cause) => cause
    case CreateFailed(name) => "Failed to create \"" + name + "\" asset"
    case ProtectedAccess(name) =>
      "Asset " + name + " cannot be \"protected\".\nPlease change it to have \"private\" or \"public\" access."
    case UploadFailed => "Failed to upload Asset"
  }

  /** The creation failure message identifies the asset: different names give different messages. */
  lemma CreateFailedMessageNamesAsset(a: string, b: string)
    ensures Message(CreateFailed(a)) == Message(CreateFailed(b)) ==> a == b
  {
    var p, q := "Failed to create \"", "\" asset";
    var ma, mb := p + a + q, p + b + q;
    if ma == mb {
      assert |a| == |b|;
      assert a == ma[|p|..|p| + |a|];
      assert b == mb[|p|..|p| + |b|];
    }
  }

  // ---------------------------------------------------------------------------
  // Reconciliation: getOrCreateAssetResources
  // ---------------------------------------------------------------------------

  /** Index `i` holds the first listed asset whose friendly name is `name`. */
  ghost predicate FirstMatchAt(existing: seq<AssetApiResource>, name: string, i: int)
  {
    0 <= i < |existing| && existing[i].friendlyName == name &&
    forall j :: 0 <= j < i ==> existing[j].friendlyName != name
  }

  /** `existingAssets.find(x => asset.name === x.friendly_name)`, projected to its sid. */
  function FindExisting(existing: seq<AssetApiResource>, name: string): (r: Option<Sid>)
    ensures r.None? <==> forall i :: 0 <= i < |existing| ==> existing[i].friendlyName != name
    ensures r.Some? ==> exists i :: FirstMatchAt(existing, name, i) && existing[i].sid == r.value
  {
    if existing == [] then None
    else if existing[0].friendlyName == name then
      assert FirstMatchAt(existing, name, 0);
      Some(existing[0].sid)
    else
      var r := FindExisting(existing[1..], name);
      assert r.Some? ==> exists i :: FirstMatchAt(existing[1..], name, i) && existing[1..][i].sid == r.value;
      assert forall i :: FirstMatchAt(existing[1..], name, i) ==> FirstMatchAt(existing, name, i + 1);
      r
  }

  /** What one asset contributes to the matched list: itself with the found sid, or nothing. */
  function MatchOne(asset: AssetConfig, existing: seq<AssetApiResource>): seq<AssetResource>
  {
    match FindExisting(existing, asset.name)
    case Some(sid) => [AssetResource(asset, sid)]
    case None => []
  }

  /** What one asset contributes to the list of assets to create: itself, or nothing. */
  function UnmatchOne(asset: AssetConfig, existing: seq<AssetApiResource>): seq<AssetConfig>
  {
    if FindExisting(existing, asset.name).None? then [asset] else []
  }

  /** The assets that reuse an existing sid, with that sid attached, in input order. */
  function Matched(assets: seq<AssetConfig>, existing: seq<AssetApiResource>): seq<AssetResource>
  {
    if assets == [] then [] else MatchOne(assets[0], existing) + Matched(assets[1..], existing)
  }

  /** The assets that need a creation call, in input order. */
  function Unmatched(assets: seq<AssetConfig>, existing: seq<AssetApiResource>): seq<AssetConfig>
  {
    if assets == [] then [] else UnmatchOne(assets[0], existing) + Unmatched(assets[1..], existing)
  }

  function Names(assets: seq<AssetConfig>): seq<string>
  {
    seq(|assets|, i requires 0 <= i < |assets| => assets[i].name)
  }

  function Configs(resources: seq<AssetResource>): seq<AssetConfig>
  {
    seq(|resources|, i requires 0 <= i < |resources| => resources[i].config)
  }

  lemma NamesConcat(xs: seq<AssetConfig>, ys: seq<AssetConfig>)
    ensures Names(xs + ys) == Names(xs) + Names(ys)
  {
  }

  lemma ConfigsConcat(xs: seq<AssetResource>, ys: seq<AssetResource>)
    ensures Configs(xs + ys) == Configs(xs) + Configs(ys)
  {
  }

  lemma ConfigsCons(r: AssetResource, rs: seq<AssetResource>)
    ensures Configs([r] + rs) == [r.config] + Configs(rs)
  {
  }

  /**
   * The creation endpoint's answer to each creation request of one run. A
   * request is identified by its position among the creation requests and by
   * the name it sends, so two requests for the same name may be answered
   * differently; `None` is a failed request.
   */
  type Creator = (nat, string) -> Option<Sid>

  /** `createAssetResource`: creation request `k`; a failed call becomes `Failed to create "<name>" asset`. */
  function CreateAssetResource(k: nat, name: string, create: Creator): (r: Result<Sid, AssetError>)
    ensures r.Ok? <==> create(k, name).Some?
    ensures r.Ok? ==> Some(r.value) == create(k, name)
    ensures r.Err? ==> r.error == CreateFailed(name)
  {
    match create(k, name)
    case Some(sid) => Ok(sid)
    case None => Err(CreateFailed(name))
  }

  /** One more creation, request `k`, joined onto the outcome of the previous ones. */
  function AppendCreated(acc: Result<seq<AssetResource>, AssetError>, a: AssetConfig, k: nat, create: Creator): Result<seq<AssetResource>, AssetError>
  {
    match acc
    case Err(e) => Err(e)
    case Ok(created) =>
      match CreateAssetResource(k, a.name, create)
      case Err(e) => Err(e)
      case Ok(sid) => Ok(created + [AssetResource(a, sid)])
  }

  /** The joined outcome of one creation request per asset of `toCreate`, the first failure winning. */
  function CreateAll(toCreate: seq<AssetConfig>, create: Creator): Result<seq<AssetResource>, AssetError>
  {
    if toCreate == [] then Ok([])
    else
      var n := |toCreate| - 1;
      AppendCreated(CreateAll(toCreate[..n], create), toCreate[n], n, create)
  }

  lemma CreateAllSnoc(toCreate: seq<AssetConfig>, a: AssetConfig, create: Creator)
    ensures CreateAll(toCreate + [a], create) == AppendCreated(CreateAll(toCreate, create), a, |toCreate|, create)
  {
    var t := toCreate + [a];
    assert t[..|toCreate|] == toCreate && t[|toCreate|] == a;
    assert CreateAll(t, create) == AppendCreated(CreateAll(t[..|toCreate|], create), a, |toCreate|, create);
  }

  /** When every creation request succeeds, so does the join. */
  lemma {:induction false} CreateAllSucceeds(toCreate: seq<AssetConfig>, create: Creator)
    requires forall i :: 0 <= i < |toCreate| ==> create(i, toCreate[i].name).Some?
    ensures CreateAll(toCreate, create).Ok?
  {
    if toCreate != [] {
      var n := |toCreate| - 1;
      assert forall i :: 0 <= i < n ==> toCreate[..n][i] == toCreate[i];
      CreateAllSucceeds(toCreate[..n], create);
    }
  }

  /**
   * A successful join is the list of created assets: each keeps its fields
   * and receives the sid its own request was answered with, in the order of
   * `toCreate`.
   */
  lemma {:induction false} CreateAllSuccess(toCreate: seq<AssetConfig>, create: Creator)
    ensures CreateAll(toCreate, create).Ok? ==> Configs(CreateAll(toCreate, create).value) == toCreate
    ensures CreateAll(toCreate, create).Ok? ==>
      forall i :: 0 <= i < |toCreate| ==> Some(CreateAll(toCreate, create).value[i].sid) == create(i, toCreate[i].name)
  {
    if toCreate != [] && CreateAll(toCreate, create).Ok? {
      var n := |toCreate| - 1;
      var prefix := toCreate[..n];
      var last := toCreate[n];
      CreateAllSuccess(prefix, create);
      var created := CreateAll(prefix, create).value;
      var r := AssetResource(last, create(n, last.name).value);
      assert CreateAll(toCreate, create).value == created + [r];
      ConfigsConcat(created, [r]);
      assert toCreate == prefix + [last];
      assert forall i :: 0 <= i < n ==> prefix[i] == toCreate[i];
    }
  }

  /** A failed join reports the first request, in the order of `toCreate`, that failed. */
  lemma {:induction false} CreateAllFirstFailure(toCreate: seq<AssetConfig>, create: Creator)
    ensures CreateAll(toCreate, create).Err? ==>
      exists i :: 0 <= i < |toCreate| && create(i, toCreate[i].name).None? &&
                  CreateAll(toCreate, create).error == CreateFailed(toCreate[i].name) &&
                  forall j :: 0 <= j < i ==> create(j, toCreate[j].name).Some?
  {
    if toCreate != [] && CreateAll(toCreate, create).Err? {
      var n := |toCreate| - 1;
      var prefix := toCreate[..n];
      assert forall j :: 0 <= j < n ==> prefix[j] == toCreate[j];
      if CreateAll(prefix, create).Err? {
        CreateAllFirstFailure(prefix, create);
      } else {
        CreateAllSuccess(prefix, create);
        assert create(n, toCreate[n].name).None?;
      }
    }
  }

  /** The result of a reconciliation against an already listed set of remote assets. */
  function Reconcile(assets: seq<AssetConfig>, existing: seq<AssetApiResource>, create: Creator): Result<seq<AssetResource>, AssetError>
  {
    match CreateAll(Unmatched(assets, existing), create)
    case Err(e) => Err(e)
    case Ok(created) => Ok(Matched(assets, existing) + created)
  }

  /** The names sent to the creation endpoint, one per unmatched asset, in input order. */
  function CreationCalls(assets: seq<AssetConfig>, existing: seq<AssetApiResource>): seq<string>
  {
    Names(Unmatched(assets, existing))
  }

  lemma {:induction false} MatchedSnoc(assets: seq<AssetConfig>, a: AssetConfig, existing: seq<AssetApiResource>)
    ensures Matched(assets + [a], existing) == Matched(assets, existing) + MatchOne(a, existing)
  {
    var t := assets + [a];
    if assets == [] {
      assert t == [a] && t[1..] == [];
    } else {
      assert t[0] == assets[0];
      assert t[1..] == assets[1..] + [a];
      MatchedSnoc(assets[1..], a, existing);
    }
  }

  lemma {:induction false} UnmatchedSnoc(assets: seq<AssetConfig>, a: AssetConfig, existing: seq<AssetApiResource>)
    ensures Unmatched(assets + [a], existing) == Unmatched(assets, existing) + UnmatchOne(a, existing)
  {
    var t := assets + [a];
    if assets == [] {
      assert t == [a] && t[1..] == [];
    } else {
      assert t[0] == assets[0];
      assert t[1..] == assets[1..] + [a];
      UnmatchedSnoc(assets[1..], a, existing);
    }
  }

  /**
   * The `forEach` of `getOrCreateAssetResources`: an asset whose name equals
   * an existing friendly name is pushed onto `output` with that asset's sid,
   * any other asset onto `assetsToCreate`.
   */
  method SplitByExisting(assets: seq<AssetConfig>, existingAssets: seq<AssetApiResource>)
    returns (output: seq<AssetResource>, assetsToCreate: seq<AssetConfig>)
    ensures output == Matched(assets, existingAssets)
    ensures assetsToCreate == Unmatched(assets, existingAssets)
  {
    output, assetsToCreate := [], [];
    for i := 0 to |assets|
      invariant output == Matched(assets[..i], existingAssets)
      invariant assetsToCreate == Unmatched(assets[..i], existingAssets)
    {
      assert assets[..i + 1] == assets[..i] + [assets[i]];
      MatchedSnoc(assets[..i], assets[i], existingAssets);
      UnmatchedSnoc(assets[..i], assets[i], existingAssets);
      var existingAsset := FindExisting(existingAssets, assets[i].name);
      if existingAsset.None? {
        assetsToCreate := assetsToCreate + [assets[i]];
        assert MatchOne(assets[i], existingAssets) == [];
      } else {
        output := output + [AssetResource(assets[i], existingAsset.value)];
        assert UnmatchOne(assets[i], existingAssets) == [];
      }
    }
    assert assets[..|assets|] == assets;
  }

  /**
   * The `Promise.all` over `assetsToCreate.map(...)`: one creation call per
   * asset (all of them are issued, `calls` records their names), joined into
   * the created list or the first failure.
   */
  method CreateAssetResources(assetsToCreate: seq<AssetConfig>, create: Creator)
    returns (createdAssets: Result<seq<AssetResource>, AssetError>, calls: seq<string>)
    ensures createdAssets == CreateAll(assetsToCreate, create)
    ensures calls == Names(assetsToCreate)
  {
    calls := [];
    createdAssets := Ok([]);
    for j := 0 to |assetsToCreate|
      invariant calls == Names(assetsToCreate[..j])
      invariant createdAssets == CreateAll(assetsToCreate[..j], create)
    {
      var asset := assetsToCreate[j];
      assert assetsToCreate[..j + 1] == assetsToCreate[..j] + [asset];
      CreateAllSnoc(assetsToCreate[..j], asset, create);
      calls := calls + [asset.name];
      var newAsset := CreateAssetResource(j, asset.name, create);
      if createdAssets.Ok? {
        if newAsset.Ok? {
          createdAssets := Ok(createdAssets.value + [AssetResource(asset, newAsset.value)]);
        } else {
          createdAssets := Err(newAsset.error);
        }
      }
    }
    assert assetsToCreate[..|assetsToCreate|] == assetsToCreate;
  }

  /**
   * `getOrCreateAssetResources`: list the existing assets, split the assets
   * into those whose name equals an existing friendly name and those to
   * create, issue one creation call per asset to create, and return the
   * matched list followed by the created list. `calls` records the names sent
   * to the creation endpoint.
   */
  method GetOrCreateAssetResources(
    assets: seq<AssetConfig>,
    listing: Result<seq<AssetApiResource>, string>,
    create: Creator)
    returns (result: Result<seq<AssetResource>, AssetError>, calls: seq<string>)
    ensures listing.Err? ==> result == Err(ListFailed(listing.error)) && calls == []
    ensures listing.Ok? ==> result == Reconcile(assets, listing.value, create)
    ensures listing.Ok? ==> calls == CreationCalls(assets, listing.value)
  {
    if listing.Err? {
      return Err(ListFailed(listing.error)), [];
    }
    var output, assetsToCreate := SplitByExisting(assets, listing.value);
    var createdAssets;
    createdAssets, calls := CreateAssetResources(assetsToCreate, create);
    if createdAssets.Ok? {
      result := Ok(output + createdAssets.value);
    } else {
      result := Err(createdAssets.error);
    }
  }

  // ---------------------------------------------------------------------------
  // Properties of the reconciliation
  // ---------------------------------------------------------------------------

  /** Every matched resource carries the first matching sid, and the matched group keeps input order. */
  lemma {:induction false} MatchedFacts(assets: seq<AssetConfig>, existing: seq<AssetApiResource>)
    ensures forall i :: 0 <= i < |Matched(assets, existing)| ==>
      FindExisting(existing, Matched(assets, existing)[i].config.name) == Some(Matched(assets, existing)[i].sid)
    ensures SubsequenceOf(Configs(Matched(assets, existing)), assets)
  {
    if assets != [] {
      MatchedFacts(assets[1..], existing);
      var a := assets[0];
      var rest := Matched(assets[1..], existing);
      var found := FindExisting(existing, a.name);
      if found.Some? {
        var r := AssetResource(a, found.value);
        assert Matched(assets, existing) == [r] + rest;
        ConfigsCons(r, rest);
        var xs := Configs([r] + rest);
        assert xs[0] == assets[0] && xs[1..] == Configs(rest);
      } else {
        assert Matched(assets, existing) == rest;
        assert Configs(rest) == [] || SubsequenceOf(Configs(rest), assets[1..]);
      }
    }
  }

  /** No unmatched asset has a namesake among the existing assets, and the group keeps input order. */
  lemma {:induction false} UnmatchedFacts(assets: seq<AssetConfig>, existing: seq<AssetApiResource>)
    ensures forall a :: a in Unmatched(assets, existing) <==> a in assets && FindExisting(existing, a.name).None?
    ensures SubsequenceOf(Unmatched(assets, existing), assets)
  {
    if assets != [] {
      UnmatchedFacts(assets[1..], existing);
      assert forall a :: a in assets <==> a == assets[0] || a in assets[1..] by {
        assert assets == [assets[0]] + assets[1..];
      }
      var a := assets[0];
      var rest := Unmatched(assets[1..], existing);
      if FindExisting(existing, a.name).None? {
        var xs := [a] + rest;
        assert Unmatched(assets, existing) == xs;
        assert xs[0] == assets[0] && xs[1..] == rest;
      } else {
        assert Unmatched(assets, existing) == rest;
        assert rest == [] || SubsequenceOf(rest, assets[1..]);
      }
    }
  }

  /** Matched and unmatched assets together are the input, each asset exactly once. */
  lemma {:induction false} Partition(assets: seq<AssetConfig>, existing: seq<AssetApiResource>)
    ensures multiset(Configs(Matched(assets, existing))) + multiset(Unmatched(assets, existing)) == multiset(assets)
  {
    if assets != [] {
      Partition(assets[1..], existing);
      var a := assets[0];
      var rest := Matched(assets[1..], existing);
      var restU := Unmatched(assets[1..], existing);
      assert multiset(assets) == multiset([a]) + multiset(assets[1..]) by {
        assert assets == [a] + assets[1..];
      }
      var found := FindExisting(existing, a.name);
      if found.Some? {
        var r := AssetResource(a, found.value);
        assert Matched(assets, existing) == [r] + rest;
        assert Unmatched(assets, existing) == restU;
        ConfigsCons(r, rest);
        assert multiset(Configs(Matched(assets, existing))) == multiset([a]) + multiset(Configs(rest));
      } else {
        assert Matched(assets, existing) == rest;
        assert Unmatched(assets, existing) == [a] + restU;
        assert multiset(Unmatched(assets, existing)) == multiset([a]) + multiset(restU);
      }
    }
  }

  /**
   * Coverage: a successful reconciliation returns every input asset exactly
   * once, fields unchanged, with a sid attached.
   */
  lemma ReconcileCoversEachAssetOnce(assets: seq<AssetConfig>, existing: seq<AssetApiResource>, create: Creator)
    requires Reconcile(assets, existing, create).Ok?
    ensures |Reconcile(assets, existing, create).value| == |assets|
    ensures multiset(Configs(Reconcile(assets, existing, create).value)) == multiset(assets)
  {
    var m := Matched(assets, existing);
    var u := Unmatched(assets, existing);
    CreateAllSuccess(u, create);
    var created := CreateAll(u, create).value;
    assert Reconcile(assets, existing, create).value == m + created;
    ConfigsConcat(m, created);
    Partition(assets, existing);
    assert multiset(Configs(m + created)) == multiset(assets);
    assert |multiset(Configs(m + created))| == |Configs(m + created)|;
  }

  /**
   * The matched group: the first `|Matched|` results are the assets that have
   * a namesake, in input order, each with the sid of the FIRST existing asset
   * of that name.
   */
  lemma ReconcileMatchedGroup(assets: seq<AssetConfig>, existing: seq<AssetApiResource>, create: Creator, rs: seq<AssetResource>)
    requires Reconcile(assets, existing, create) == Ok(rs)
    ensures |Matched(assets, existing)| <= |rs|
    ensures forall i :: 0 <= i < |Matched(assets, existing)| ==>
      exists e :: FirstMatchAt(existing, rs[i].config.name, e) && existing[e].sid == rs[i].sid
    ensures SubsequenceOf(Configs(rs[..|Matched(assets, existing)|]), assets)
  {
    var m := Matched(assets, existing);
    assert rs == m + CreateAll(Unmatched(assets, existing), create).value;
    MatchedFacts(assets, existing);
    assert SubsequenceOf(Configs(rs[..|m|]), assets) by {
      assert rs[..|m|] == m;
    }
    forall i | 0 <= i < |m|
      ensures exists e :: FirstMatchAt(existing, rs[i].config.name, e) && existing[e].sid == rs[i].sid
    {
      assert rs[i] == m[i];
      assert FindExisting(existing, m[i].config.name) == Some(m[i].sid);
    }
  }

  /**
   * The created group: the results after the matched group are the assets
   * without a namesake, in input order; the `k`-th of them carries the sid
   * answered to creation request number `k`.
   */
  lemma ReconcileCreatedGroup(assets: seq<AssetConfig>, existing: seq<AssetApiResource>, create: Creator, rs: seq<AssetResource>)
    requires Reconcile(assets, existing, create) == Ok(rs)
    ensures |Matched(assets, existing)| <= |rs|
    ensures Configs(rs[|Matched(assets, existing)|..]) == Unmatched(assets, existing)
    ensures forall k :: 0 <= k < |rs| - |Matched(assets, existing)| ==>
      FindExisting(existing, rs[|Matched(assets, existing)|..][k].config.name).None? &&
      create(k, rs[|Matched(assets, existing)|..][k].config.name) == Some(rs[|Matched(assets, existing)|..][k].sid)
    ensures SubsequenceOf(Configs(rs[|Matched(assets, existing)|..]), assets)
  {
    var m := Matched(assets, existing);
    var u := Unmatched(assets, existing);
    var created := CreateAll(u, create).value;
    assert rs == m + created;
    assert rs[|m|..] == created;
    UnmatchedFacts(assets, existing);
    CreatedAnswers(u, existing, create);
  }

  /** Each created asset is an unlisted one carrying the answer to its own request. */
  lemma CreatedAnswers(u: seq<AssetConfig>, existing: seq<AssetApiResource>, create: Creator)
    requires CreateAll(u, create).Ok?
    requires forall a :: a in u ==> FindExisting(existing, a.name).None?
    ensures Configs(CreateAll(u, create).value) == u
    ensures forall k :: 0 <= k < |CreateAll(u, create).value| ==>
      FindExisting(existing, CreateAll(u, create).value[k].config.name).None? &&
      create(k, CreateAll(u, create).value[k].config.name) == Some(CreateAll(u, create).value[k].sid)
  {
    var created := CreateAll(u, create).value;
    CreateAllSuccess(u, create);
    forall k | 0 <= k < |created|
      ensures created[k].config == u[k]
    {
      assert Configs(created)[k] == u[k];
    }
  }

  /** How often one name is sent to the creation endpoint. */
  lemma {:induction false} CreationCallsCount(assets: seq<AssetConfig>, existing: seq<AssetApiResource>, n: string)
    ensures multiset(CreationCalls(assets, existing))[n] ==
      if FindExisting(existing, n).None? then multiset(Names(assets))[n] else 0
  {
    if assets != [] {
      CreationCallsCount(assets[1..], existing, n);
      var a := assets[0];
      var head := UnmatchOne(a, existing);
      var rest := Unmatched(assets[1..], existing);
      assert Unmatched(assets, existing) == head + rest;
      NamesConcat(head, rest);
      NamesConcat([a], assets[1..]);
      assert assets == [a] + assets[1..];
      assert Names(head) == if FindExisting(existing, a.name).None? then [a.name] else [];
    }
  }

  /**
   * Exactly once: an asset name with no existing namesake is sent to the
   * creation endpoint as many times as it occurs among the inputs; a name that
   * has a namesake is never sent.
   */
  lemma CreationCallsExactlyUnmatched(assets: seq<AssetConfig>, existing: seq<AssetApiResource>)
    ensures forall n :: FindExisting(existing, n).None? ==>
      multiset(CreationCalls(assets, existing))[n] == multiset(Names(assets))[n]
    ensures forall n :: FindExisting(existing, n).Some? ==>
      multiset(CreationCalls(assets, existing))[n] == 0
  {
    forall n {
      CreationCallsCount(assets, existing, n);
    }
  }

  /** Idempotence: when every name already exists remotely, nothing is created. */
  lemma {:induction false} ReconcileWithAllExisting(assets: seq<AssetConfig>, existing: seq<AssetApiResource>, create: Creator)
    requires forall a :: a in assets ==> exists e :: e in existing && e.friendlyName == a.name
    ensures Unmatched(assets, existing) == []
    ensures CreationCalls(assets, existing) == []
    ensures Reconcile(assets, existing, create) == Ok(Matched(assets, existing))
  {
    if assets != [] {
      var a := assets[0];
      assert a in assets;
      var e :| e in existing && e.friendlyName == a.name;
      var i :| 0 <= i < |existing| && existing[i] == e;
      assert FindExisting(existing, a.name).Some?;
      assert forall b :: b in assets[1..] ==> b in assets;
      ReconcileWithAllExisting(assets[1..], existing, create);
      assert Unmatched(assets, existing) == Unmatched(assets[1..], existing);
    }
    assert Matched(assets, existing) + [] == Matched(assets, existing);
  }

  /** What the listing shows after a reconciliation that returned `resources`. */
  function Listed(resources: seq<AssetResource>): seq<AssetApiResource>
  {
    seq(|resources|, i requires 0 <= i < |resources| => AssetApiResource(resources[i].sid, resources[i].config.name))
  }

  /**
   * Running the reconciliation a second time, against a listing that now also
   * holds the assets returned by the first run, creates nothing.
   */
  lemma ReconcileTwiceCreatesNothing(assets: seq<AssetConfig>, existing: seq<AssetApiResource>, create: Creator)
    requires Reconcile(assets, existing, create).Ok?
    ensures CreationCalls(assets, existing + Listed(Reconcile(assets, existing, create).value)) == []
  {
    var rs := Reconcile(assets, existing, create).value;
    var after := existing + Listed(rs);
    ReconcileCoversEachAssetOnce(assets, existing, create);
    forall a | a in assets
      ensures exists e :: e in after && e.friendlyName == a.name
    {
      assert a in multiset(Configs(rs));
      assert a in Configs(rs);
      var i :| 0 <= i < |rs| && Configs(rs)[i] == a;
      assert after[|existing| + i] == Listed(rs)[i];
    }
    ReconcileWithAllExisting(assets, after, create);
  }

  /**
   * Failure: the reconciliation fails exactly when some creation request
   * fails; the error names the asset of the first failed request, and every
   * request before it succeeded. The requests are the unmatched assets, in
   * input order (`UnmatchedFacts`).
   */
  lemma ReconcileFailure(assets: seq<AssetConfig>, existing: seq<AssetApiResource>, create: Creator)
    ensures var u := Unmatched(assets, existing);
      Reconcile(assets, existing, create).Err? <==> exists k :: 0 <= k < |u| && create(k, u[k].name).None?
    ensures var u := Unmatched(assets, existing);
      Reconcile(assets, existing, create).Err? ==>
        exists k :: 0 <= k < |u| && create(k, u[k].name).None? &&
                    Reconcile(assets, existing, create).error == CreateFailed(u[k].name) &&
                    forall j :: 0 <= j < k ==> create(j, u[j].name).Some?
  {
    var u := Unmatched(assets, existing);
    CreateAllSuccess(u, create);
    CreateAllFirstFailure(u, create);
  }

  /** Two assets with the same name and no namesake are both created, by two requests. */
  lemma SameNameCreatedTwice(create: Creator)
    requires create(0, "x.js") == Some("ZX1") && create(1, "x.js") == Some("ZX2")
    ensures var x := AssetConfig("x.js", "/x.js", Public, "", None);
            CreationCalls([x, x], []) == ["x.js", "x.js"] &&
            Reconcile([x, x], [], create) == Ok([AssetResource(x, "ZX1"), AssetResource(x, "ZX2")])
  {
    var x := AssetConfig("x.js", "/x.js", Public, "", None);
    assert FindExisting([], "x.js") == None;
    assert [x, x][1..] == [x] && [x][1..] == [];
    assert Unmatched([], []) == [] && Matched([], []) == [];
    assert Unmatched([x], []) == [x] && Matched([x], []) == [];
    assert Unmatched([x, x], []) == [x, x];
    assert Matched([x, x], []) == [];
    var r1, r2 := AssetResource(x, "ZX1"), AssetResource(x, "ZX2");
    assert [x, x][..1] == [x] && [x][..0] == [];
    assert CreateAll([], create) == Ok([]);
    assert [] + [r1] == [r1];
    assert CreateAll([x], create) == Ok([r1]);
    assert [r1] + [r2] == [r1, r2];
    assert CreateAll([x, x], create) == Ok([r1, r2]);
    assert [] + [r1, r2] == [r1, r2];
    assert Names([x, x]) == ["x.js", "x.js"];
  }

  /** The example of two assets, one of which already exists remotely. */
  lemma TwoAssetsOneExisting(create: Creator)
    requires create(0, "b.js") == Some("ZB1")
    ensures var a := AssetConfig("a.js", "/a.js", Public, "", None);
            var b := AssetConfig("b.js", "/b.js", Public, "", None);
            var existing := [AssetApiResource("ZA1", "a.js")];
            CreationCalls([a, b], existing) == ["b.js"] &&
            Reconcile([a, b], existing, create) == Ok([AssetResource(a, "ZA1"), AssetResource(b, "ZB1")])
  {
    var a := AssetConfig("a.js", "/a.js", Public, "", None);
    var b := AssetConfig("b.js", "/b.js", Public, "", None);
    var existing := [AssetApiResource("ZA1", "a.js")];
    assert "a.js" != "b.js";
    assert FindExisting(existing, "a.js") == Some("ZA1");
    assert FindExisting(existing, "b.js") == None;
    assert [a, b][1..] == [b] && [b][1..] == [];
    assert Unmatched([b], existing) == [b];
    assert Unmatched([a, b], existing) == [b];
    assert Matched([b], existing) == [];
    assert Matched([a, b], existing) == [AssetResource(a, "ZA1")];
    var rb := AssetResource(b, "ZB1");
    assert CreateAssetResource(0, "b.js", create) == Ok("ZB1");
    assert CreateAll([], create) == Ok([]);
    assert [b][..0] == [];
    assert [] + [rb] == [rb];
    assert CreateAll([b], create) == Ok([rb]);
    assert [AssetResource(a, "ZA1")] + [rb] == [AssetResource(a, "ZA1"), rb];
    assert Names([b]) == ["b.js"];
  }

  // ---------------------------------------------------------------------------
  // Upload: createAssetVersion and uploadAsset
  // ---------------------------------------------------------------------------

  /** The multipart form posted to the asset's version endpoint. */
  datatype UploadForm = UploadForm(
    assetSid: Sid,
    path: string,
    visibility: Access,
    content: string,
    filename: string,
    contentType: string)

  /** The parsed response of the version endpoint (other fields are opaque). */
  datatype VersionResource = VersionResource(sid: Sid)

  /** The outcome of an operation together with the requests it sent. */
  datatype Exchange<T> = Exchange(outcome: Result<T, AssetError>, requests: seq<UploadForm>)

  /** `asset.filePath || asset.name`: an absent or empty file path falls back to the name. */
  function ContentTypeSource(asset: AssetConfig): (r: string)
    ensures asset.filePath.Some? && asset.filePath.value != "" ==> r == asset.filePath.value
    ensures r == asset.name || Some(r) == asset.filePath
    ensures r == "" ==> asset.name == ""
  {
    match asset.filePath
    case Some(p) => if p != "" then p else asset.name
    case None => asset.name
  }

  /**
   * `createAssetVersion`. `getContentType` stands for the content-type
   * resolver; `post` is the service's answer to the upload request, `None`
   * covering a failed request and a body that does not parse.
   */
  function CreateAssetVersion(
    asset: AssetResource,
    getContentType: (string, string) -> string,
    post: UploadForm -> Option<VersionResource>): (r: Exchange<VersionResource>)
    ensures asset.config.access == Protected ==>
      r.outcome == Err(ProtectedAccess(asset.config.name)) && r.requests == []
    ensures asset.config.access != Protected ==>
      |r.requests| == 1 &&
      r.requests[0].assetSid == asset.sid && r.requests[0].path == asset.config.path &&
      r.requests[0].visibility == asset.config.access && r.requests[0].content == asset.config.content &&
      r.requests[0].filename == asset.config.name
    ensures asset.config.access != Protected && asset.config.filePath.Some? && asset.config.filePath.value != "" ==>
      r.requests[0].contentType == getContentType(asset.config.content, asset.config.filePath.value)
    ensures asset.config.access != Protected && (asset.config.filePath.None? || asset.config.filePath.value == "") ==>
      r.requests[0].contentType == getContentType(asset.config.content, asset.config.name)
    ensures asset.config.access != Protected ==>
      (r.outcome.Ok? <==> post(r.requests[0]).Some?) &&
      (r.outcome.Ok? ==> r.outcome.value == post(r.requests[0]).value) &&
      (r.outcome.Err? ==> r.outcome.error == UploadFailed)
  {
    if asset.config.access == Protected then
      Exchange(Err(ProtectedAccess(asset.config.name)), [])
    else
      var contentType := getContentType(asset.config.content, ContentTypeSource(asset.config));
      var form := UploadForm(asset.sid, asset.config.path, asset.config.access,
                             asset.config.content, asset.config.name, contentType);
      match post(form)
      case Some(version) => Exchange(Ok(version), [form])
      case None => Exchange(Err(UploadFailed), [form])
  }

  /** `uploadAsset`: create a version and return its sid. */
  function UploadAsset(
    asset: AssetResource,
    getContentType: (string, string) -> string,
    post: UploadForm -> Option<VersionResource>): (r: Exchange<Sid>)
    ensures r.requests == CreateAssetVersion(asset, getContentType, post).requests
    ensures r.outcome.Ok? ==>
      CreateAssetVersion(asset, getContentType, post).outcome == Ok(VersionResource(r.outcome.value))
    ensures r.outcome.Err? <==> CreateAssetVersion(asset, getContentType, post).outcome.Err?
    ensures r.outcome.Err? ==>
      (r.outcome.error == ProtectedAccess(asset.config.name) && r.requests == []) ||
      (r.outcome.error == UploadFailed && |r.requests| == 1)
  {
    var version := CreateAssetVersion(asset, getContentType, post);
    match version.outcome
    case Ok(v) => Exchange(Ok(v.sid), version.requests)
    case Err(e) => Exchange(Err(e), version.requests)
  }
}
