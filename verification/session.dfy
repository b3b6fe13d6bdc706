/** The session store: `save_tunnels` turns the tunnels into a JSON array of
    `to_dict` records and encrypts it; `load_tunnels` decrypts, parses and
    rebuilds each tunnel with the constructor, keyword by keyword. Files are
    not modelled: save returns the text it would write and load takes the
    text it would read. */
module Session {
  import opened Wrappers
  import opened Bytes
  import opened Json
  import opened SshTunnel
  import Encryption
  import Base64

  datatype LoadError =
    | CipherError(cause: Encryption.DecryptError)   // decryption failed
    | MalformedJson                                 // the plaintext is not JSON
    | NotIterable                                   // the JSON value cannot be iterated
    | NotAMapping                                   // an element cannot be passed as keywords
    | UnexpectedKeyword                             // a record has a key the constructor lacks
    | MissingArgument                               // a record lacks a required key
    | IllTypedValue                                 // a record value has the wrong JSON type

  function AsText(v: Value): Result<string, LoadError>
  {
    if v.JString? then Success(v.s) else Failure(IllTypedValue)
  }

  function AsNumber(v: Value): Result<int, LoadError>
  {
    if v.JNumber? then Success(v.n) else Failure(IllTypedValue)
  }

  /** `server_ip` may also be JSON null, which is Python's None. */
  function AsOptionalText(v: Value): Result<Option<string>, LoadError>
  {
    if v.JNull? then Success(None)
    else if v.JString? then Success(Some(v.s))
    else Failure(IllTypedValue)
  }

  /** The record's present keys hold values of the type the field needs. */
  predicate WellTyped(d: map<string, Value>)
  {
    && (forall k | k in d && k in {"local_port", "host_port", "server_port"} :: d[k].JNumber?)
    && (forall k | k in d && k in {"name", "local_ip", "host_ip", "user", "password"} :: d[k].JString?)
    && ("server_ip" in d ==> d["server_ip"].JNull? || d["server_ip"].JString?)
  }

  /** `SSHTunnel(**d)`: keys must be constructor parameters, the required
      ones must be present, and absent optional ones take their defaults. */
  function FromKeywords(d: map<string, Value>): (r: Result<Tunnel, LoadError>)
    ensures r.Success? <==> d.Keys <= Fields && RequiredFields <= d.Keys && WellTyped(d)
    ensures !(d.Keys <= Fields) ==> r == Failure(UnexpectedKeyword)
    ensures r.Success? ==> r.value.handle.None?
    ensures r.Success? && "server_ip" in d && d["server_ip"] != JString("") && d["server_ip"] != JNull ==>
      d["server_ip"] == JString(r.value.config.serverIp)
    ensures r.Success? ==>
      && JNumber(r.value.config.localPort) == d["local_port"]
      && JString(r.value.config.hostIp) == d["host_ip"]
      && JNumber(r.value.config.hostPort) == d["host_port"]
      && JString(r.value.config.user) == d["user"]
      && JString(r.value.config.password) == d["password"]
    ensures r.Success? ==>
      && r.value.config.name == (if "name" in d then d["name"].s else DefaultName)
      && r.value.config.localIp == (if "local_ip" in d then d["local_ip"].s else DefaultLocalIp)
      && r.value.config.serverPort == (if "server_port" in d then d["server_port"].n else DefaultServerPort)
    ensures r.Success? && ("server_ip" !in d || d["server_ip"] == JString("") || d["server_ip"] == JNull) ==>
      r.value.config.serverIp == r.value.config.hostIp
  {
    if !(d.Keys <= Fields) then Failure(UnexpectedKeyword)
    else if !(RequiredFields <= d.Keys) then Failure(MissingArgument)
    else
      var localPort :- AsNumber(d["local_port"]);
      var hostIp :- AsText(d["host_ip"]);
      var hostPort :- AsNumber(d["host_port"]);
      var user :- AsText(d["user"]);
      var password :- AsText(d["password"]);
      var name :- if "name" in d then AsText(d["name"]) else Success(DefaultName);
      var localIp :- if "local_ip" in d then AsText(d["local_ip"]) else Success(DefaultLocalIp);
      var serverIp :- if "server_ip" in d then AsOptionalText(d["server_ip"]) else Success(None);
      var serverPort :- if "server_port" in d then AsNumber(d["server_port"]) else Success(DefaultServerPort);
      Success(NewTunnel(localPort, hostIp, hostPort, user, password, name, localIp, serverIp, serverPort))
  }

  /** The list comprehension `[SSHTunnel(**d) for d in data]` over a JSON
      array: elements are taken in order and the first failure propagates. */
  function FromRecords(items: seq<Value>): (r: Result<seq<Tunnel>, LoadError>)
    ensures r.Success? ==> |r.value| == |items|
    ensures r.Success? ==> forall i | 0 <= i < |r.value| :: r.value[i].handle.None?
    ensures r.Success? ==>
      forall i | 0 <= i < |items| :: items[i].JObject? && FromKeywords(items[i].fields) == Success(r.value[i])
    decreases |items|
  {
    if |items| == 0 then Success([])
    else
      var first :- if items[0].JObject? then FromKeywords(items[0].fields) else Failure(NotAMapping);
      var rest :- FromRecords(items[1..]);
      Success([first] + rest)
  }

  /** Iterating the parsed value: an array yields its elements; an object
      yields its keys and a string its characters, so only an empty one gets
      through; any other value cannot be iterated. */
  function FromJson(v: Value): (r: Result<seq<Tunnel>, LoadError>)
    ensures r.Success? ==> forall i | 0 <= i < |r.value| :: !IsActive(r.value[i])
    ensures v.JArray? && r.Success? ==> |r.value| == |v.items|
    ensures v.JArray? ==> r == FromRecords(v.items)
    ensures !v.JArray? && r.Success? ==> r.value == []
    ensures v == JObject(map[]) || v == JString("") ==> r == Success([])
    ensures (v.JObject? && v != JObject(map[])) || (v.JString? && v != JString("")) ==> r == Failure(NotAMapping)
    ensures v.JNull? || v.JBool? || v.JNumber? ==> r == Failure(NotIterable)
  {
    match v
    case JArray(items) => FromRecords(items)
    case JObject(fields) => if |fields| == 0 then Success([]) else Failure(NotAMapping)
    case JString(s) => if |s| == 0 then Success([]) else Failure(NotAMapping)
    case _ => Failure(NotIterable)
  }

  /** The JSON array `save_tunnels` serialises: one `to_dict` record per
      tunnel, in list order; handles are not part of it. */
  function Records(tunnels: seq<Tunnel>): (v: Value)
    ensures v.JArray? && |v.items| == |tunnels|
    ensures forall i | 0 <= i < |tunnels| :: v.items[i] == JObject(ToDict(tunnels[i].config))
  {
    JArray(seq(|tunnels|, i requires 0 <= i < |tunnels| => JObject(ToDict(tunnels[i].config))))
  }

  /** `save_tunnels`, returning the text it writes. */
  function SaveTunnels(tunnels: seq<Tunnel>, password: seq<byte>, salt: seq<byte>, iv: seq<byte>,
                       suite: Encryption.CipherSuite, codec: Codec): (text: string)
    requires |salt| == Encryption.SaltSize && |iv| == Encryption.IvSize
    ensures Base64.Decode(text)
      == Success(Encryption.Join(Encryption.Seal(codec.dumps(Records(tunnels)), password, salt, iv, suite)))
    ensures Encryption.LawfulSuite(suite) ==>
      Encryption.Decrypt(text, password, suite) == Success(codec.dumps(Records(tunnels)))
  {
    var plain := codec.dumps(Records(tunnels));
    var text := Encryption.Encrypt(plain, password, salt, iv, suite);
    assert Encryption.LawfulSuite(suite) ==> Encryption.Decrypt(text, password, suite) == Success(plain) by {
      if Encryption.LawfulSuite(suite) {
        Encryption.DecryptEncrypt(plain, password, salt, iv, suite);
      }
    }
    text
  }

  /** Two saves of the same tunnels with a different salt or IV write
      different session files. */
  lemma FreshValuesGiveDistinctSessions(tunnels: seq<Tunnel>, password: seq<byte>,
                                        salt: seq<byte>, iv: seq<byte>, salt': seq<byte>, iv': seq<byte>,
                                        suite: Encryption.CipherSuite, codec: Codec)
    requires |salt| == Encryption.SaltSize && |iv| == Encryption.IvSize
    requires |salt'| == Encryption.SaltSize && |iv'| == Encryption.IvSize
    requires salt != salt' || iv != iv'
    ensures SaveTunnels(tunnels, password, salt, iv, suite, codec) != SaveTunnels(tunnels, password, salt', iv', suite, codec)
  {
    Encryption.FreshValuesGiveDistinctTexts(codec.dumps(Records(tunnels)), password, salt, iv, salt', iv', suite);
  }

  /** `load_tunnels`, from the text it reads. Every loaded tunnel is new and
      inactive. */
  function LoadTunnels(text: string, password: seq<byte>, suite: Encryption.CipherSuite, codec: Codec)
    : (r: Result<seq<Tunnel>, LoadError>)
    ensures r.Success? ==> forall i | 0 <= i < |r.value| :: r.value[i].handle.None? && !IsActive(r.value[i])
    ensures Encryption.Decrypt(text, password, suite).Failure? ==>
      r == Failure(CipherError(Encryption.Decrypt(text, password, suite).error))
    ensures var d := Encryption.Decrypt(text, password, suite);
      d.Success? && codec.loads(d.value).None? ==> r == Failure(MalformedJson)
    ensures var d := Encryption.Decrypt(text, password, suite);
      d.Success? && codec.loads(d.value).Some? ==> r == FromJson(codec.loads(d.value).value)
  {
    var plain :- Encryption.Decrypt(text, password, suite).MapFailure(e => CipherError(e));
    var data :- match codec.loads(plain)
                case Some(v) => Success(v)
                case None => Failure(MalformedJson);
    FromJson(data)
  }

  /** The tunnel the constructor rebuilds from a saved configuration. */
  function Rebuilt(c: Config): Tunnel
  {
    Tunnel(c.(serverIp := if c.serverIp == "" then c.hostIp else c.serverIp), None)
  }

  /** A configuration as the constructor rebuilds it from its own record:
      identical, except that an empty server address becomes the host
      address. */
  lemma FromKeywordsToDict(c: Config)
    ensures FromKeywords(ToDict(c)) == Success(Rebuilt(c))
    ensures var t := FromKeywords(ToDict(c)).value;
      && t.handle.None?
      && t.config.(serverIp := c.serverIp) == c
      && t.config.serverIp == (if c.serverIp == "" then c.hostIp else c.serverIp)
  {
  }

  /** The comprehension succeeds with the tunnels each record rebuilds to,
      in order, when every record rebuilds. */
  lemma {:induction false} FromRecordsEach(items: seq<Value>, tunnels: seq<Tunnel>)
    requires |items| == |tunnels|
    requires forall i | 0 <= i < |items| :: items[i].JObject? && FromKeywords(items[i].fields) == Success(tunnels[i])
    ensures FromRecords(items) == Success(tunnels)
    decreases |items|
  {
    if |items| > 0 {
      FromRecordsEach(items[1..], tunnels[1..]);
      assert tunnels == [tunnels[0]] + tunnels[1..];
    }
  }

  /** The records of a tunnel list rebuild, in order, to the tunnels the
      constructor makes of each configuration. */
  lemma FromRecordsOfRecords(tunnels: seq<Tunnel>)
    ensures FromRecords(Records(tunnels).items)
      == Success(seq(|tunnels|, i requires 0 <= i < |tunnels| => Rebuilt(tunnels[i].config)))
  {
    var items := Records(tunnels).items;
    var expected := seq(|tunnels|, i requires 0 <= i < |tunnels| => Rebuilt(tunnels[i].config));
    forall i | 0 <= i < |items|
      ensures items[i].JObject? && FromKeywords(items[i].fields) == Success(expected[i])
    {
      FromKeywordsToDict(tunnels[i].config);
    }
    FromRecordsEach(items, expected);
  }

  /** Loading the saved text undoes the encryption and the JSON encoding,
      leaving the constructor calls over the saved records. */
  lemma LoadSaved(tunnels: seq<Tunnel>, password: seq<byte>, salt: seq<byte>, iv: seq<byte>,
                  suite: Encryption.CipherSuite, codec: Codec)
    requires Encryption.LawfulSuite(suite) && LawfulCodec(codec)
    requires |salt| == Encryption.SaltSize && |iv| == Encryption.IvSize
    ensures LoadTunnels(SaveTunnels(tunnels, password, salt, iv, suite, codec), password, suite, codec)
      == FromRecords(Records(tunnels).items)
  {
    var text := SaveTunnels(tunnels, password, salt, iv, suite, codec);
    var plain := codec.dumps(Records(tunnels));
    assert Encryption.Decrypt(text, password, suite) == Success(plain);
    assert Encryption.Decrypt(text, password, suite).MapFailure(e => CipherError(e)) == Success(plain);
    assert codec.loads(plain) == Some(Records(tunnels));
    assert LoadTunnels(text, password, suite, codec) == FromJson(Records(tunnels));
  }

  /** Loading what was saved, with the same password, gives back as many
      tunnels, in the same order, all inactive and with every field equal,
      except that a tunnel saved with an empty server address comes back with
      its host address there. */
  lemma SaveLoadRoundTrip(tunnels: seq<Tunnel>, password: seq<byte>, salt: seq<byte>, iv: seq<byte>,
                          suite: Encryption.CipherSuite, codec: Codec)
    requires Encryption.LawfulSuite(suite) && LawfulCodec(codec)
    requires |salt| == Encryption.SaltSize && |iv| == Encryption.IvSize
    ensures var r := LoadTunnels(SaveTunnels(tunnels, password, salt, iv, suite, codec), password, suite, codec);
      && r.Success?
      && |r.value| == |tunnels|
      && forall i | 0 <= i < |tunnels| ::
           && !IsActive(r.value[i])
           && r.value[i].config.(serverIp := tunnels[i].config.serverIp) == tunnels[i].config
           && r.value[i].config.serverIp ==
                (if tunnels[i].config.serverIp == "" then tunnels[i].config.hostIp else tunnels[i].config.serverIp)
  {
    LoadSaved(tunnels, password, salt, iv, suite, codec);
    FromRecordsOfRecords(tunnels);
  }

  /** Tunnels with a non-empty server address come back exactly as saved,
      apart from their runtime handles. */
  lemma SaveLoadExact(tunnels: seq<Tunnel>, password: seq<byte>, salt: seq<byte>, iv: seq<byte>,
                      suite: Encryption.CipherSuite, codec: Codec)
    requires Encryption.LawfulSuite(suite) && LawfulCodec(codec)
    requires |salt| == Encryption.SaltSize && |iv| == Encryption.IvSize
    requires forall i | 0 <= i < |tunnels| :: tunnels[i].config.serverIp != ""
    ensures LoadTunnels(SaveTunnels(tunnels, password, salt, iv, suite, codec), password, suite, codec)
      == Success(seq(|tunnels|, i requires 0 <= i < |tunnels| => Tunnel(tunnels[i].config, None)))
  {
    LoadSaved(tunnels, password, salt, iv, suite, codec);
    FromRecordsOfRecords(tunnels);
    var rebuilt := seq(|tunnels|, i requires 0 <= i < |tunnels| => Rebuilt(tunnels[i].config));
    var expected := seq(|tunnels|, i requires 0 <= i < |tunnels| => Tunnel(tunnels[i].config, None));
    assert rebuilt == expected;
  }

  /** The server-address fallback acts once: saving the loaded tunnels again,
      under any fresh salt and IV, and loading them gives the same list. */
  lemma ReloadIsStable(tunnels: seq<Tunnel>, password: seq<byte>, salt: seq<byte>, iv: seq<byte>,
                       salt': seq<byte>, iv': seq<byte>, suite: Encryption.CipherSuite, codec: Codec)
    requires Encryption.LawfulSuite(suite) && LawfulCodec(codec)
    requires |salt| == Encryption.SaltSize && |iv| == Encryption.IvSize
    requires |salt'| == Encryption.SaltSize && |iv'| == Encryption.IvSize
    ensures var first := LoadTunnels(SaveTunnels(tunnels, password, salt, iv, suite, codec), password, suite, codec);
      && first.Success?
      && LoadTunnels(SaveTunnels(first.value, password, salt', iv', suite, codec), password, suite, codec) == first
  {
    SaveLoadRoundTrip(tunnels, password, salt, iv, suite, codec);
    var first := LoadTunnels(SaveTunnels(tunnels, password, salt, iv, suite, codec), password, suite, codec).value;
    SaveLoadRoundTrip(first, password, salt', iv', suite, codec);
    var second := LoadTunnels(SaveTunnels(first, password, salt', iv', suite, codec), password, suite, codec).value;
    forall i | 0 <= i < |first|
      ensures second[i] == first[i]
    {
      assert first[i].config.serverIp == "" ==> first[i].config.hostIp == "";
      assert second[i].config == first[i].config;
    }
    assert second == first;
  }
}
