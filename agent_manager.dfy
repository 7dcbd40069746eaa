/**
 * The lookup helpers over the agents configuration: the list of agent names,
 * the entry for one name, and which of the API keys an agent needs are missing.
 */
module AgentManager {
  import opened Wrappers

  /** An agent entry's `requires` field (`needs` here, since `requires` is a Dafny keyword): absent, one key as a bare string, or a list of keys. */
  datatype Requires = Absent | One(key: string) | Many(keys: seq<string>)

  /** One entry of the `agents` list (the fields the helpers read). */
  datatype AgentInfo = AgentInfo(name: string, needs: Requires)

  /** The loaded configuration; `agents` is `None` when the key is missing. */
  datatype Config = Config(agents: Option<seq<AgentInfo>>)

  /** `agent_config.get("agents", [])` */
  function Agents(config: Config): seq<AgentInfo> {
    config.agents.GetOr([])
  }

  /** `get_agent_names(agent_config)` */
  function AgentNames(config: Config): (names: seq<string>)
    ensures |names| == |Agents(config)|
    ensures forall k :: 0 <= k < |names| ==> names[k] == Agents(config)[k].name
  {
    seq(|Agents(config)|, k requires 0 <= k < |Agents(config)| => Agents(config)[k].name)
  }

  /** The first agent of `agents` named `name`. */
  function FirstNamed(agents: seq<AgentInfo>, name: string): (r: Option<AgentInfo>)
    ensures r.Some? ==> r.value.name == name
  {
    if agents == [] then None
    else if agents[0].name == name then Some(agents[0])
    else FirstNamed(agents[1..], name)
  }

  /** `get_agent_info(agent_config, name)`: a listed entry with that name, or `None` iff none has it. */
  function AgentInfoFor(config: Config, name: string): (r: Option<AgentInfo>)
    ensures r.Some? ==> r.value.name == name && r.value in Agents(config)
    ensures r.None? <==> forall k :: 0 <= k < |Agents(config)| ==> Agents(config)[k].name != name
  {
    FirstNamedSpec(Agents(config), name);
    FirstNamed(Agents(config), name)
  }

  /** Index `k` holds the first entry named `name`. */
  ghost predicate FirstIndexOf(agents: seq<AgentInfo>, name: string, k: int) {
    0 <= k < |agents| && agents[k].name == name && forall j :: 0 <= j < k ==> agents[j].name != name
  }

  /** The lookup finds the entry at the first index with that name, and finds nothing iff no entry has it. */
  lemma {:induction false} FirstNamedSpec(agents: seq<AgentInfo>, name: string)
    ensures FirstNamed(agents, name).None? <==> forall k :: 0 <= k < |agents| ==> agents[k].name != name
    ensures FirstNamed(agents, name).Some? ==>
      exists k :: FirstIndexOf(agents, name, k) && FirstNamed(agents, name).value == agents[k]
  {
    if agents != [] && agents[0].name != name {
      FirstNamedSpec(agents[1..], name);
      if FirstNamed(agents[1..], name).Some? {
        var k :| FirstIndexOf(agents[1..], name, k) && FirstNamed(agents[1..], name).value == agents[1..][k];
        forall j | 0 <= j < k + 1 ensures agents[j].name != name {
          if j > 0 { assert agents[j] == agents[1..][j - 1]; }
        }
        assert FirstIndexOf(agents, name, k + 1);
      } else {
        forall k | 0 <= k < |agents| ensures agents[k].name != name {
          if k > 0 { assert agents[k] == agents[1..][k - 1]; }
        }
      }
    } else if agents != [] {
      assert FirstIndexOf(agents, name, 0);
    }
  }

  /** A name is found iff it is among the listed names; the entry found carries that name. */
  lemma AgentInfoIffListed(config: Config, name: string)
    ensures AgentInfoFor(config, name).Some? <==> name in AgentNames(config)
    ensures AgentInfoFor(config, name).Some? ==> AgentInfoFor(config, name).value.name == name
  {
    FirstNamedSpec(Agents(config), name);
    var names := AgentNames(config);
    if name in names {
      var k :| 0 <= k < |names| && names[k] == name;
      assert Agents(config)[k].name == name;
    }
  }

  /** With two entries of the same name, the earlier one wins. */
  lemma FirstMatchWins(config: Config, name: string, i: int, j: int)
    requires 0 <= i < j < |Agents(config)|
    requires Agents(config)[i].name == name && Agents(config)[j].name == name
    requires forall k :: 0 <= k < i ==> Agents(config)[k].name != name
    ensures AgentInfoFor(config, name) == Some(Agents(config)[i])
  {
    FirstNamedSpec(Agents(config), name);
    var k :| FirstIndexOf(Agents(config), name, k) && AgentInfoFor(config, name).value == Agents(config)[k];
    assert !(k < i) && !(i < k);
  }

  /** A configuration without an `agents` key lists no names and finds no agent. */
  lemma MissingAgentsKey(name: string)
    ensures AgentNames(Config(None)) == []
    ensures AgentInfoFor(Config(None), name) == None
  {
  }

  // ---------------------------------------------------------------------------
  // Missing API keys

  /** `agent_info.get("requires", [])`, with a bare string taken as a one-key list. */
  function RequiredKeys(info: AgentInfo): (keys: seq<string>)
    ensures info.needs.Absent? ==> keys == []
    ensures info.needs.One? ==> keys == [info.needs.key]
    ensures info.needs.Many? ==> keys == info.needs.keys
  {
    match info.needs
    case Absent => []
    case One(key) => [key]
    case Many(keys) => keys
  }

  /** `not api_keys.get(api)`: no entry, or the empty string. */
  predicate IsMissing(apiKeys: map<string, string>, api: string) {
    api !in apiKeys || apiKeys[api] == ""
  }

  /** The keys of `required` that are missing, in their order. */
  function MissingKeys(required: seq<string>, apiKeys: map<string, string>): (r: seq<string>)
    ensures |r| <= |required|
    ensures forall k :: 0 <= k < |r| ==> r[k] in required && IsMissing(apiKeys, r[k])
  {
    if required == [] then []
    else (if IsMissing(apiKeys, required[0]) then [required[0]] else []) + MissingKeys(required[1..], apiKeys)
  }

  /** `check_required_apis(agent_info, api_keys)`: exactly the required keys that are missing. */
  function CheckRequiredApis(info: AgentInfo, apiKeys: map<string, string>): (r: seq<string>)
    ensures forall api :: api in r ==> api in RequiredKeys(info) && IsMissing(apiKeys, api)
    ensures forall api :: api in RequiredKeys(info) && IsMissing(apiKeys, api) ==> api in r
  {
    MissingKeysAll(RequiredKeys(info), apiKeys);
    MissingKeys(RequiredKeys(info), apiKeys)
  }

  lemma MissingKeysAll(required: seq<string>, apiKeys: map<string, string>)
    ensures forall api :: api in required ==> (api in MissingKeys(required, apiKeys) <==> IsMissing(apiKeys, api))
  {
    forall api | api in required
      ensures api in MissingKeys(required, apiKeys) <==> IsMissing(apiKeys, api)
    {
      MissingKeysMembers(required, apiKeys, api);
    }
  }

  /** A required key is reported iff it is missing. */
  lemma {:induction false} MissingKeysMembers(required: seq<string>, apiKeys: map<string, string>, api: string)
    requires api in required
    ensures api in MissingKeys(required, apiKeys) <==> IsMissing(apiKeys, api)
  {
    if required[0] != api {
      MissingKeysMembers(required[1..], apiKeys, api);
    }
  }

  /** The filter distributes over concatenation, so it keeps the order of the required keys. */
  lemma {:induction false} MissingKeysConcat(a: seq<string>, b: seq<string>, apiKeys: map<string, string>)
    ensures MissingKeys(a + b, apiKeys) == MissingKeys(a, apiKeys) + MissingKeys(b, apiKeys)
  {
    if a == [] {
      assert a + b == b;
    } else {
      assert (a + b)[0] == a[0] && (a + b)[1..] == a[1..] + b;
      MissingKeysConcat(a[1..], b, apiKeys);
    }
  }

  /** `r` is `s` with some elements left out, the rest in their order. */
  ghost predicate Subsequence(r: seq<string>, s: seq<string>) {
    if r == [] then true
    else if s == [] then false
    else if r[0] == s[0] then Subsequence(r[1..], s[1..])
    else Subsequence(r, s[1..])
  }

  lemma {:induction false} MissingKeysSubsequence(required: seq<string>, apiKeys: map<string, string>)
    ensures Subsequence(MissingKeys(required, apiKeys), required)
  {
    if required != [] {
      MissingKeysSubsequence(required[1..], apiKeys);
      var rest := MissingKeys(required[1..], apiKeys);
      if IsMissing(apiKeys, required[0]) {
        assert ([required[0]] + rest)[1..] == rest;
      } else {
        assert [] + rest == rest;
      }
    }
  }

  /** With every key present and non-empty nothing is reported; with none configured, all are. */
  lemma MissingKeysExtremes(required: seq<string>, apiKeys: map<string, string>)
    ensures (forall k :: 0 <= k < |required| ==> !IsMissing(apiKeys, required[k])) ==> MissingKeys(required, apiKeys) == []
    ensures MissingKeys(required, map[]) == required
  {
    if required != [] {
      MissingKeysExtremes(required[1..], apiKeys);
      assert forall k :: 0 <= k < |required[1..]| ==> required[1..][k] == required[k + 1];
    }
  }

  /** No `requires` field means nothing is missing; a bare key is checked like a one-key list. */
  lemma CheckRequiredShapes(name: string, key: string, apiKeys: map<string, string>)
    ensures CheckRequiredApis(AgentInfo(name, Absent), apiKeys) == []
    ensures CheckRequiredApis(AgentInfo(name, One(key)), apiKeys) == CheckRequiredApis(AgentInfo(name, Many([key])), apiKeys)
    ensures CheckRequiredApis(AgentInfo(name, One(key)), apiKeys) == (if IsMissing(apiKeys, key) then [key] else [])
  {
    assert [key][1..] == [];
  }

  /** A key present with an empty value counts as missing, as an absent one does. */
  lemma EmptyValueIsMissing(name: string)
    ensures CheckRequiredApis(AgentInfo(name, Many(["TAVILY_API_KEY", "GEMINI_API_KEY"])),
                              map["TAVILY_API_KEY" := "", "GEMINI_API_KEY" := "k"]) == ["TAVILY_API_KEY"]
  {
    var keys := map["TAVILY_API_KEY" := "", "GEMINI_API_KEY" := "k"];
    var required := ["TAVILY_API_KEY", "GEMINI_API_KEY"];
    assert required[1..] == ["GEMINI_API_KEY"] && required[1..][1..] == [];
    assert !IsMissing(keys, "GEMINI_API_KEY");
  }
}
