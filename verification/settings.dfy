/**
 The content script's settings: the defaults, and loadSettings, which merges
 the stored settings over them after turning a legacy `enabledPlatforms`
 table into an `enabledTypes` table.
 */
module Settings {
  import opened Base
  import opened Js
  import LinkDetector

  /** The `enabledTypes` table of the defaults: every platform switched on */
  const DefaultTypes: map<string, Val> :=
    map["baidu" := Bool(true), "aliyun" := Bool(true), "quark" := Bool(true),
        "lanzou" := Bool(true), "pan123" := Bool(true), "generic" := Bool(true)]

  /** defaultSettings */
  const DefaultFields: map<string, Val> :=
    map["autoReplace" := Bool(true), "autoSubmit" := Bool(true), "offlineMode" := Bool(false),
        "enabledTypes" := Obj(DefaultTypes)]

  /** `enabledPlatforms[key] !== false`, as a boolean value */
  function NotFalse(platforms: Val, key: string): Val {
    Bool(Get(platforms, key) != Bool(false))
  }

  /** The `enabledTypes` table built from a legacy `enabledPlatforms` table */
  function ConvertLegacy(platforms: Val): (t: map<string, Val>)
    ensures t.Keys == DefaultTypes.Keys
    ensures forall k :: k in t ==> t[k].Bool?
    ensures t["lanzou"] == Bool(true) && t["generic"] == Bool(true)
    ensures forall k :: k in ["baidu", "aliyun", "quark", "pan123"] ==>
              (t[k] == Bool(false) <==> Get(platforms, k) == Bool(false))
  {
    map["baidu" := NotFalse(platforms, "baidu"), "aliyun" := NotFalse(platforms, "aliyun"),
        "quark" := NotFalse(platforms, "quark"), "lanzou" := Bool(true),
        "pan123" := NotFalse(platforms, "pan123"), "generic" := Bool(true)]
  }

  /** The stored settings after the compatibility step: a legacy table and no current one
      yields a current one */
  function Upgrade(user: map<string, Val>): (u: map<string, Val>)
    ensures u.Keys == user.Keys || u.Keys == user.Keys + {"enabledTypes"}
    ensures forall k :: k in user && k != "enabledTypes" ==> u[k] == user[k]
    ensures Truthy(Get(Obj(user), "enabledTypes")) || !Truthy(Get(Obj(user), "enabledPlatforms")) ==> u == user
    ensures !Truthy(Get(Obj(user), "enabledTypes")) && Truthy(Get(Obj(user), "enabledPlatforms")) ==>
              "enabledTypes" in u && u["enabledTypes"] == Obj(ConvertLegacy(user["enabledPlatforms"]))
  {
    var us := Obj(user);
    if Truthy(Get(us, "enabledPlatforms")) && !Truthy(Get(us, "enabledTypes")) then
      user["enabledTypes" := Obj(ConvertLegacy(Get(us, "enabledPlatforms")))]
    else user
  }

  /** loadSettings, given the answer to `getSettings` (`None` when the request failed):
      the stored object spread over the defaults, or the defaults alone */
  function LoadSettings(data: Option<Val>): (r: map<string, Val>)
    ensures DefaultFields.Keys <= r.Keys
    ensures data.None? ==> r == DefaultFields
    ensures forall k :: k in r && k !in DefaultFields ==>
              data.Some? && Get(data.value, "settings").Obj? && k in Get(data.value, "settings").fields
    ensures data.Some? && !Get(data.value, "settings").Obj? ==> r == DefaultFields
    ensures data.Some? && Get(data.value, "settings").Obj? ==>
              var stored := Upgrade(Get(data.value, "settings").fields);
              && (forall k :: k in stored ==> k in r && r[k] == stored[k])
              && (forall k :: k in DefaultFields && k !in stored ==> r[k] == DefaultFields[k])
  {
    if data.None? || !Truthy(data.value) || !Truthy(Get(data.value, "settings")) then DefaultFields
    else
      match Get(data.value, "settings")
      case Obj(user) => Spread(DefaultFields, Upgrade(user))
      case _ => DefaultFields
  }

  /** A stored legacy table decides the same way before and after loading: the converted
      table agrees with it, and the table itself is still there and still takes precedence */
  lemma LegacyAgrees(user: map<string, Val>, ty: string)
    requires Truthy(Get(Obj(user), "enabledPlatforms")) && !Truthy(Get(Obj(user), "enabledTypes"))
    requires ty in ["baidu", "aliyun", "quark", "pan123"]
    ensures var loaded := LoadSettings(Some(Obj(map["settings" := Obj(user)])));
      LinkDetector.IsNetDiskTypeEnabled(ty, Obj(loaded)) == LinkDetector.IsNetDiskTypeEnabled(ty, Obj(user))
  {
    var loaded := LoadSettings(Some(Obj(map["settings" := Obj(user)])));
    assert Get(Obj(loaded), "enabledPlatforms") == Get(Obj(user), "enabledPlatforms");
  }
}
