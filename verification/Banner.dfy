/** The connection banner: what one end says about itself, and what the other end makes of it. */
module Banner {
  import opened Strings
  import StreamProtocol

  const DELAYED_ACK := "delayed_ack"
  const NAME := "ro.product.name"
  const MODEL := "ro.product.model"
  const DEVICE := "ro.product.device"
  const FEATURES := "features"

  // ---- feature lists

  function FeatureSetToString(features: seq<string>): string {
    Joined(features, ',')
  }

  function StringToFeatureSet(s: string): seq<string> {
    if s == "" then [] else Pieces(s, ",")
  }

  predicate CanUseFeature(features: seq<string>, supported: seq<string>, feature: string) {
    feature in features && feature in supported
  }

  lemma JoinedIsEmpty(things: seq<string>, separator: char)
    ensures Joined(things, separator) == "" <==> things == [] || things == [""]
  {
    if |things| > 1 {
      assert separator in Joined(things, separator);
    }
  }

  /** What is read from a string is never the list of one empty name, nor has a name with a comma. */
  lemma ReadFeatures(s: string)
    ensures StringToFeatureSet(s) != [""]
    ensures forall f :: f in StringToFeatureSet(s) ==> Free(f, ",") && forall c :: c in f ==> c in s
  {
    PiecesAreFree(s, ",");
    JoinPieces(s, ',');
  }

  /** A feature list survives the string form exactly if no name has a comma and it is not one empty name. */
  lemma FeaturesRoundTrip(features: seq<string>)
    ensures StringToFeatureSet(FeatureSetToString(features)) == features <==>
            features != [""] && forall f :: f in features ==> ',' !in f
  {
    ReadFeatures(FeatureSetToString(features));
    JoinedIsEmpty(features, ',');
    if features != [] && features != [""] && forall f :: f in features ==> ',' !in f {
      PiecesOfJoined(features, ',');
    }
  }

  // ---- what a transport knows about the other end

  datatype State = Unknown | Bootloader | Device | Recovery | Sideload | Rescue | Host

  datatype Info = Info(features: seq<string>, delayedAck: bool, product: string, model: string, device: string,
                       state: State)

  function WithFeatures(i: Info, s: string, supported: seq<string>): Info {
    var features := StringToFeatureSet(s);
    i.(features := features, delayedAck := CanUseFeature(features, supported, DELAYED_ACK))
  }

  function WithKey(i: Info, key: string, value: string, supported: seq<string>): Info {
    if key == NAME then i.(product := value)
    else if key == MODEL then i.(model := value)
    else if key == DEVICE then i.(device := value)
    else if key == FEATURES then WithFeatures(i, value, supported)
    else i
  }

  /** Anything but one key and one value is passed over. */
  function WithProp(i: Info, prop: string, supported: seq<string>): Info {
    if prop == "" then i else
    var kv := Pieces(prop, "=");
    if |kv| != 2 then i else WithKey(i, kv[0], kv[1], supported)
  }

  function WithProps(i: Info, props: seq<string>, supported: seq<string>): Info {
    if props == [] then i else WithProp(WithProps(i, props[..|props| - 1], supported), props[|props| - 1], supported)
  }

  function StateOf(kind: string): State {
    if kind == "bootloader" then Bootloader
    else if kind == "device" then Device
    else if kind == "recovery" then Recovery
    else if kind == "sideload" then Sideload
    else if kind == "rescue" then Rescue
    else Host
  }

  /** The features are forgotten first; the rest is kept unless the banner says otherwise. */
  function ParsedBanner(i: Info, banner: string, supported: seq<string>): Info {
    var pieces := Pieces(banner, ":");
    var reset := WithFeatures(i, "", supported);
    var told := if |pieces| > 2 then WithProps(reset, Pieces(pieces[2], ";"), supported) else reset;
    told.(state := StateOf(pieces[0]))
  }

  class Transport {
    const supported: seq<string>
    var features: seq<string>
    var delayedAck: bool
    var product: string
    var model: string
    var device: string
    var state: State

    constructor (supported: seq<string>)
      ensures this.supported == supported && AsInfo() == Info([], false, "", "", "", Unknown)
    {
      this.supported, features, delayedAck := supported, [], false;
      product, model, device, state := "", "", "", Unknown;
    }

    ghost function AsInfo(): Info
      reads this
    {
      Info(features, delayedAck, product, model, device, state)
    }

    method SetFeatures(s: string)
      modifies this`features, this`delayedAck
      ensures AsInfo() == WithFeatures(old(AsInfo()), s, supported)
    {
      features := [];
      if s != "" {
        features := Split(s, ",");
      }
      delayedAck := CanUseFeature(features, supported, DELAYED_ACK);
    }

    method ParseProp(prop: string)
      modifies this
      ensures AsInfo() == WithProp(old(AsInfo()), prop, supported)
    {
      if prop == "" {
        return;
      }
      var kv := Split(prop, "=");
      if |kv| != 2 {
        return;
      }
      if kv[0] == NAME {
        product := kv[1];
      } else if kv[0] == MODEL {
        model := kv[1];
      } else if kv[0] == DEVICE {
        device := kv[1];
      } else if kv[0] == FEATURES {
        SetFeatures(kv[1]);
      }
    }

    method ParseBanner(banner: string)
      modifies this
      ensures AsInfo() == ParsedBanner(old(AsInfo()), banner, supported)
    {
      var pieces := Split(banner, ":");
      SetFeatures("");
      ghost var first := AsInfo();
      if |pieces| > 2 {
        var props := Split(pieces[2], ";");
        for k := 0 to |props|
          invariant AsInfo() == WithProps(first, props[..k], supported)
        {
          assert props[..k + 1][..k] == props[..k];
          ParseProp(props[k]);
        }
        assert props[..|props|] == props;
      }
      state := StateOf(pieces[0]);
    }
  }

  // ---- what an end says

  function Properties(props: seq<(string, string)>): seq<string> {
    if props == [] then [] else Properties(props[..|props| - 1]) + [props[|props| - 1].0 + "=" + props[|props| - 1].1]
  }

  function ConnectionString(kind: string, props: seq<(string, string)>, features: seq<string>): string {
    kind + "::" + Joined(Properties(props) + ["features=" + FeatureSetToString(features)], ';')
  }

  /** get_connection_string; a host has no properties to tell. */
  method GetConnectionString(kind: string, props: seq<(string, string)>, features: seq<string>) returns (s: string)
    ensures s == ConnectionString(kind, props, features)
  {
    var list := [];
    for k := 0 to |props|
      invariant list == Properties(props[..k])
    {
      assert props[..k + 1][..k] == props[..k];
      list := list + [props[k].0 + "=" + props[k].1];
    }
    assert props[..|props|] == props;
    var told := Join(features, ',');
    list := list + ["features=" + told];
    var all := Join(list, ';');
    s := kind + "::" + all;
  }

  // ---- what comes across

  /** The feature lists that a banner can carry. */
  predicate Clean(features: seq<string>) {
    features != [""] && forall f :: f in features ==> Free(f, ":;=,")
  }

  lemma FreeOf(s: string, t: string, delims: string)
    requires (forall c :: c in s ==> c in t) && Free(t, delims)
    ensures Free(s, delims)
  {
  }

  /** No property can give a transport a feature list that is not clean. */
  lemma PropIsClean(i: Info, prop: string, supported: seq<string>)
    requires Clean(i.features) && Free(prop, ":;")
    ensures Clean(WithProp(i, prop, supported).features)
  {
    var kv := Pieces(prop, "=");
    if prop != "" && |kv| == 2 && kv[0] == FEATURES {
      PiecesAreFree(prop, "=");
      var value := kv[1];
      assert value in kv;
      ReadFeatures(value);
      forall f | f in StringToFeatureSet(value)
        ensures Free(f, ":;=,")
      {
        FreeOf(f, value, "=");
        FreeOf(f, value, ":;");
      }
    }
  }

  lemma {:induction false} PropsAreClean(i: Info, props: seq<string>, supported: seq<string>)
    requires Clean(i.features) && forall p :: p in props ==> Free(p, ":;")
    ensures Clean(WithProps(i, props, supported).features)
  {
    if props != [] {
      PropsAreClean(i, props[..|props| - 1], supported);
      PropIsClean(WithProps(i, props[..|props| - 1], supported), props[|props| - 1], supported);
    }
  }

  /** Whatever the banner, the feature list that is read from it is clean. */
  lemma ParsedIsClean(i: Info, banner: string, supported: seq<string>)
    ensures Clean(ParsedBanner(i, banner, supported).features)
  {
    var pieces := Pieces(banner, ":");
    if |pieces| > 2 {
      PiecesAreFree(banner, ":");
      var props := pieces[2];
      assert props in pieces;
      PiecesAreFree(props, ";");
      forall p | p in Pieces(props, ";")
        ensures Free(p, ":;")
      {
        FreeOf(p, props, ":");
      }
      PropsAreClean(WithFeatures(i, "", supported), Pieces(props, ";"), supported);
    }
  }

  lemma {:induction false} JoinedFree(things: seq<string>, separator: char, delims: string)
    requires separator !in delims && forall x :: x in things ==> Free(x, delims)
    ensures Free(Joined(things, separator), delims)
  {
    if things != [] {
      assert things[0] in things;
    }
    if |things| > 1 {
      JoinedFree(things[1..], separator, delims);
    }
  }

  lemma KeyAndValue(key: string, value: string)
    requires '=' !in key && '=' !in value
    ensures Pieces(key + "=" + value, "=") == [key, value]
  {
    assert [key, value][1..] == [value];
    assert Joined([key, value], '=') == key + "=" + value;
    PiecesOfJoined([key, value], '=');
  }

  /** No key and no value has a colon. */
  predicate NoColon(props: seq<(string, string)>) {
    forall p :: p in props ==> ':' !in p.0 && ':' !in p.1
  }

  lemma {:induction false} PropertiesHaveNoColon(props: seq<(string, string)>)
    requires NoColon(props)
    ensures forall x :: x in Properties(props) ==> Free(x, ":")
  {
    if props != [] {
      PropertiesHaveNoColon(props[..|props| - 1]);
    }
  }

  /** The three parts of a connection string. */
  lemma PartsRead(kind: string, all: string)
    requires ':' !in kind && ':' !in all
    ensures Pieces(kind + "::" + all, ":") == [kind, "", all]
  {
    ThreeParts(kind, all);
    PiecesOfJoined([kind, "", all], ':');
  }

  /** What the list of properties in a connection string is read as: the features are its last member. */
  lemma ListReads(kind: string, props: seq<(string, string)>, features: seq<string>) returns (before: seq<string>)
    requires ':' !in kind && NoColon(props) && Clean(features)
    ensures var pieces := Pieces(ConnectionString(kind, props, features), ":");
            && |pieces| == 3 && pieces[0] == kind
            && Pieces(pieces[2], ";") == before + ["features=" + FeatureSetToString(features)]
    ensures (forall x :: x in Properties(props) ==> ';' !in x) ==> before == Properties(props)
  {
    var list, last := Properties(props), "features=" + FeatureSetToString(features);
    JoinedFree(features, ',', ":;=");
    PropertiesHaveNoColon(props);
    JoinedFree(list + [last], ';', ":");
    PartsRead(kind, Joined(list + [last], ';'));
    before := LastOfList(list, last);
  }

  lemma LastOfList(list: seq<string>, last: string) returns (before: seq<string>)
    requires ';' !in last
    ensures Pieces(Joined(list + [last], ';'), ";") == before + [last]
    ensures (forall x :: x in list ==> ';' !in x) ==> before == list
  {
    before := [];
    if list == [] {
      assert list + [last] == [last];
      PiecesOfOne(last, ';');
    } else {
      before := Pieces(Joined(list, ';'), ";");
      JoinedSnoc(list, ';', last);
      PiecesSnoc(Joined(list, ';'), ';', last);
      if forall x :: x in list ==> ';' !in x {
        PiecesOfJoined(list, ';');
      }
    }
  }

  lemma ThreeParts(kind: string, all: string)
    ensures Joined([kind, "", all], ':') == kind + "::" + all
  {
    assert ["", all][1..] == [all];
    assert Joined(["", all], ':') == "" + ":" + all == ":" + all;
    assert [kind, "", all][1..] == ["", all];
    assert kind + ":" + (":" + all) == kind + "::" + all;
  }

  /** Whatever came before, the features property has the last word. */
  lemma FeaturesLast(i: Info, before: seq<string>, features: seq<string>, supported: seq<string>)
    requires Clean(features)
    ensures WithProps(i, before + ["features=" + FeatureSetToString(features)], supported)
            == WithProps(i, before, supported).(features := features,
                                                delayedAck := CanUseFeature(features, supported, DELAYED_ACK))
  {
    var told := FeatureSetToString(features);
    var list := before + ["features=" + told];
    JoinedFree(features, ',', ":;=");
    assert FEATURES + "=" + told == "features=" + told;
    KeyAndValue(FEATURES, told);
    FeaturesRoundTrip(features);
    assert list[..|list| - 1] == before;
  }

  /**
   * The other end recovers the feature list from the connection string exactly if the list is clean: no
   * name has any of the separators, and it is not the list of one empty name.
   */
  lemma BannerRoundTrip(i: Info, kind: string, props: seq<(string, string)>, features: seq<string>,
                        supported: seq<string>)
    requires ':' !in kind && NoColon(props)
    ensures ParsedBanner(i, ConnectionString(kind, props, features), supported).features == features <==>
              Clean(features)
    ensures var r := ParsedBanner(i, ConnectionString(kind, props, features), supported);
            Clean(features) ==>
              r.delayedAck == CanUseFeature(features, supported, DELAYED_ACK) && r.state == StateOf(kind)
  {
    ParsedIsClean(i, ConnectionString(kind, props, features), supported);
    if Clean(features) {
      var before := ListReads(kind, props, features);
      FeaturesLast(WithFeatures(i, "", supported), before, features, supported);
    }
  }

  /** A device also gets its three properties across. */
  lemma DeviceBannerRoundTrip(i: Info, kind: string, name: string, model: string, device: string,
                              features: seq<string>, supported: seq<string>)
    requires ':' !in kind && Clean(features) && Free(name, ":;=") && Free(model, ":;=") && Free(device, ":;=")
    ensures ParsedBanner(i, ConnectionString(kind, [(NAME, name), (MODEL, model), (DEVICE, device)], features),
                         supported)
            == Info(features, CanUseFeature(features, supported, DELAYED_ACK), name, model, device, StateOf(kind))
  {
    var props := [(NAME, name), (MODEL, model), (DEVICE, device)];
    DevicePropsArePlain(name, model, device);
    var before := ListReads(kind, props, features);
    var start := WithFeatures(i, "", supported);
    FeaturesLast(start, before, features, supported);
    ThreeKeys(start, name, model, device, supported);
  }

  lemma DevicePropsArePlain(name: string, model: string, device: string)
    requires Free(name, ":;") && Free(model, ":;") && Free(device, ":;")
    ensures var props := [(NAME, name), (MODEL, model), (DEVICE, device)];
            && NoColon(props) && (forall x :: x in Properties(props) ==> ';' !in x)
            && Properties(props) == [NAME + "=" + name, MODEL + "=" + model, DEVICE + "=" + device]
  {
    PropertyList(name, model, device);
    NoneOf(NAME, name);
    NoneOf(MODEL, model);
    NoneOf(DEVICE, device);
  }

  lemma NoneOf(key: string, value: string)
    requires ':' !in value && ';' !in value && key in [NAME, MODEL, DEVICE]
    ensures ':' !in key && ';' !in key + "=" + value
  {
    assert ';' !in NAME && ';' !in MODEL && ';' !in DEVICE;
  }

  // ---- a colon in a property

  /** The texts in front of the first colon; what is behind it is not read. */
  lemma ColonCuts(kind: string, all: string)
    requires ':' !in kind && ':' in all
    ensures var pieces := Pieces(kind + "::" + all, ":");
            |pieces| > 2 && pieces[0] == kind && pieces[2] == all[..FirstOf(all, ":")]
  {
    var c := FirstOf(all, ":");
    FrontPieces(kind, all);
    PiecesAt(all, c, ":");
  }

  lemma FrontPieces(kind: string, all: string)
    requires ':' !in kind
    ensures Pieces(kind + "::" + all, ":") == [kind] + ([""] + Pieces(all, ":"))
  {
    var s := kind + "::" + all;
    assert s[..|kind|] == kind && s[|kind| + 1..] == ":" + all;
    FirstOfIs(s, ":", |kind|);
    PiecesAt(s, |kind|, ":");
    assert (":" + all)[..0] == "" && (":" + all)[1..] == all;
    FirstOfIs(":" + all, ":", 0);
    PiecesAt(":" + all, 0, ":");
  }

  /** The text does not tell any features. */
  predicate NotFeatures(prop: string) {
    Pieces(prop, "=")[0] != FEATURES
  }

  lemma NotFeaturesKeeps(i: Info, prop: string, supported: seq<string>)
    requires NotFeatures(prop)
    ensures var r := WithProp(i, prop, supported); r.features == i.features && r.delayedAck == i.delayedAck
  {
  }

  lemma {:induction false} NoneTellsFeatures(i: Info, props: seq<string>, supported: seq<string>)
    requires forall p :: p in props ==> NotFeatures(p)
    ensures var r := WithProps(i, props, supported); r.features == i.features && r.delayedAck == i.delayedAck
  {
    if props != [] {
      var rest, last := props[..|props| - 1], props[|props| - 1];
      NoneTellsFeatures(i, rest, supported);
      NotFeaturesKeeps(WithProps(i, rest, supported), last, supported);
    }
  }

  /** A key other than features, which ends at position k, and a value in the same property. */
  predicate KeyEndsAt(prop: string, k: nat) {
    k < |prop| && prop[k] == '=' && Free(prop[..k], ":;=") && prop[..k] != FEATURES && ';' !in prop
  }

  ghost predicate OtherKey(prop: string) {
    exists k: nat :: KeyEndsAt(prop, k)
  }

  lemma KeyFirst(prop: string, k: nat)
    requires KeyEndsAt(prop, k)
    ensures NotFeatures(prop)
  {
    FirstOfIs(prop, "=", k);
    PiecesAt(prop, k, "=");
  }

  /** A property that a colon cuts off has the same key. */
  lemma CutProperty(prop: string)
    requires OtherKey(prop)
    ensures var front := prop[..FirstOf(prop, ":")];
            NotFeatures(front) && Pieces(front, ";") == [front]
  {
    var k: nat :| KeyEndsAt(prop, k);
    var c := FirstOf(prop, ":");
    forall j | 0 <= j <= k
      ensures prop[j] != ':'
    {
      assert ":;="[0] == ':';
      assert j < k ==> prop[j] == prop[..k][j] && prop[..k][j] in prop[..k];
    }
    assert c < |prop| ==> prop[c] == ':';
    assert prop[..c][..k] == prop[..k];
    KeyFirst(prop[..c], k);
    PiecesOfOne(prop[..c], ';');
  }

  lemma ColonInFirst(x: string, rest: string, all: string)
    requires ':' in x && (all == x || all == x + ";" + rest)
    ensures all[..FirstOf(all, ":")] == x[..FirstOf(x, ":")]
  {
    var c := FirstOf(x, ":");
    assert x[..|x|] == x;
    assert all[..c] == x[..c];
    FirstOfIs(all, ":", c);
  }

  lemma ColonInRest(x: string, rest: string, all: string)
    requires ':' !in x && all == x + ";" + rest
    ensures all[..FirstOf(all, ":")] == x + ";" + rest[..FirstOf(rest, ":")]
  {
    var n, c := |x| + 1, FirstOf(rest, ":");
    assert all[..n + c] == x + ";" + rest[..c];
    FirstOfIs(all, ":", n + c);
  }

  /** In front of the first colon nothing tells any features. */
  lemma {:induction false} FrontTellsNothing(list: seq<string>, last: string)
    requires (forall x :: x in list ==> OtherKey(x)) && exists x :: x in list && ':' in x
    ensures var all := Joined(list + [last], ';');
            forall p :: p in Pieces(all[..FirstOf(all, ":")], ";") ==> NotFeatures(p)
  {
    var x, others := list[0], list[1..] + [last];
    var rest, all := Joined(others, ';'), Joined(list + [last], ';');
    assert list + [last] == [x] + others;
    JoinedCons(x, others, ';');
    if ':' in x {
      ColonInFirst(x, rest, all);
      CutProperty(x);
    } else {
      FrontTellsNothing(list[1..], last);
      ColonInRest(x, rest, all);
      assert x in list && OtherKey(x);
      var k: nat :| KeyEndsAt(x, k);
      KeyFirst(x, k);
      PiecesCons(x, ';', rest[..FirstOf(rest, ":")]);
    }
  }

  lemma {:induction false} PropertiesHaveKeys(props: seq<(string, string)>)
    requires forall p :: p in props ==> Free(p.0, ":;=") && p.0 != FEATURES && ';' !in p.1
    ensures forall x :: x in Properties(props) ==> OtherKey(x)
    ensures (exists x :: x in Properties(props) && ':' in x) <==> !NoColon(props)
  {
    if props != [] {
      var rest, p := props[..|props| - 1], props[|props| - 1];
      PropertiesHaveKeys(rest);
      var x := p.0 + "=" + p.1;
      assert props == rest + [p] && Properties(props) == Properties(rest) + [x];
      assert x[..|p.0|] == p.0;
      assert KeyEndsAt(x, |p.0|);
      assert ':' in x <==> ':' in p.1;
    }
  }

  /**
   * A colon in the value of a property ends what is read of the banner, and the features, which come last, are
   * lost: none are known then, and delayed acks are not used.
   */
  lemma ColonLosesFeatures(i: Info, kind: string, props: seq<(string, string)>, features: seq<string>,
                           supported: seq<string>)
    requires ':' !in kind && !NoColon(props)
    requires forall p :: p in props ==> Free(p.0, ":;=") && p.0 != FEATURES && ';' !in p.1
    ensures var r := ParsedBanner(i, ConnectionString(kind, props, features), supported);
            r.features == [] && !r.delayedAck && r.state == StateOf(kind)
  {
    var list, last := Properties(props), "features=" + FeatureSetToString(features);
    var all := Joined(list + [last], ';');
    PropertiesHaveKeys(props);
    FrontTellsNothing(list, last);
    ColonIsIn(list, last);
    ColonCuts(kind, all);
    NoneTellsFeatures(WithFeatures(i, "", supported), Pieces(all[..FirstOf(all, ":")], ";"), supported);
  }

  lemma {:induction false} ColonIsIn(list: seq<string>, last: string)
    requires exists x :: x in list && ':' in x
    ensures ':' in Joined(list + [last], ';')
  {
    var x, others := list[0], list[1..] + [last];
    assert list + [last] == [x] + others;
    JoinedCons(x, others, ';');
    if ':' !in x {
      ColonIsIn(list[1..], last);
    }
  }

  lemma OneKey(i: Info, key: string, value: string, supported: seq<string>)
    requires '=' !in key && '=' !in value
    ensures WithProp(i, key + "=" + value, supported) == WithKey(i, key, value, supported)
  {
    KeyAndValue(key, value);
  }

  lemma ThreeKeys(i: Info, name: string, model: string, device: string, supported: seq<string>)
    requires '=' !in name && '=' !in model && '=' !in device
    ensures WithProps(i, [NAME + "=" + name, MODEL + "=" + model, DEVICE + "=" + device], supported)
            == i.(product := name, model := model, device := device)
  {
    ThreeProps(i, NAME + "=" + name, MODEL + "=" + model, DEVICE + "=" + device, supported);
    OneKey(i, NAME, name, supported);
    OneKey(i.(product := name), MODEL, model, supported);
    OneKey(i.(product := name, model := model), DEVICE, device, supported);
  }

  lemma PropertyList(name: string, model: string, device: string)
    ensures Properties([(NAME, name), (MODEL, model), (DEVICE, device)])
            == [NAME + "=" + name, MODEL + "=" + model, DEVICE + "=" + device]
  {
    var props := [(NAME, name), (MODEL, model), (DEVICE, device)];
    assert props[..2] == [(NAME, name), (MODEL, model)] && props[..2][..1] == [(NAME, name)];
    assert props[..2][..1][..0] == [];
    assert Properties(props[..2][..1]) == [NAME + "=" + name];
    assert Properties(props[..2]) == [NAME + "=" + name, MODEL + "=" + model];
  }

  lemma ThreeProps(i: Info, a: string, b: string, c: string, supported: seq<string>)
    ensures WithProps(i, [a, b, c], supported)
            == WithProp(WithProp(WithProp(i, a, supported), b, supported), c, supported)
  {
    assert [a, b, c][..2] == [a, b] && [a, b][..1] == [a] && [a][..0] == [];
    assert WithProps(i, [a], supported) == WithProp(i, a, supported);
    assert WithProps(i, [a, b], supported) == WithProp(WithProp(i, a, supported), b, supported);
  }

  /** A_OPEN is refused when its window contradicts what the receiver knows about delayed acks. */
  predicate RefusesOpen(receiver: Info, window: nat) {
    receiver.delayedAck != (window != 0)
  }

  /**
   * After both ends have read the other's banner they agree on delayed acks, so neither refuses an A_OPEN of
   * the other for its window.
   */
  lemma BothEndsAgree(a: Info, b: Info, kindA: string, kindB: string, propsA: seq<(string, string)>,
                      propsB: seq<(string, string)>,
                      featuresA: seq<string>, featuresB: seq<string>)
    requires ':' !in kindA && ':' !in kindB && NoColon(propsA) && NoColon(propsB) && Clean(featuresA)
    requires Clean(featuresB)
    ensures var a' := ParsedBanner(a, ConnectionString(kindB, propsB, featuresB), featuresA);
            var b' := ParsedBanner(b, ConnectionString(kindA, propsA, featuresA), featuresB);
            && (a'.delayedAck <==> DELAYED_ACK in featuresA && DELAYED_ACK in featuresB)
            && a'.delayedAck == b'.delayedAck
            && !RefusesOpen(b', StreamProtocol.OpenWindow(a'.delayedAck))
            && !RefusesOpen(a', StreamProtocol.OpenWindow(b'.delayedAck))
  {
    BannerRoundTrip(a, kindB, propsB, featuresB, featuresA);
    BannerRoundTrip(b, kindA, propsA, featuresA, featuresB);
  }
}
