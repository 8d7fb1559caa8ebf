/** A plugin's `plugin.json` as `LoadManifest` (internal/plugins/manifest.go)
    accepts it: the two required fields, and the defaults filled in for the
    optional ones. Reading the file and decoding its JSON are inputs: the
    model starts from what they produced. The free-form `config` object is
    not modelled. */
module PluginManifest {
  import opened Results

  /** The fields `json.Unmarshal` fills in; `capabilities` is `None` when the
      object is absent (a nil map). */
  datatype RawManifest = RawManifest(
    id: string, name: string, version: string, description: string,
    author: string, license: string, apiVersion: string, pluginType: string,
    entryPoint: string, capabilities: Option<map<string, bool>>)

  /** A validated manifest, defaults applied. */
  datatype Manifest = Manifest(
    id: string, name: string, version: string, description: string,
    author: string, license: string, apiVersion: string, pluginType: string,
    entryPoint: string, capabilities: map<string, bool>)

  /** What reading and decoding `<dir>/plugin.json` produced. */
  datatype ManifestSource = ReadFailed(readError: string) | ParseFailed(parseError: string) | Parsed(raw: RawManifest)

  const DefaultPluginType: string := "downloader"
  const DefaultEntryPoint: string := "index.js"
  const MissingId: string := "plugin.json missing required field: id"
  const MissingApiVersion: string := "plugin.json missing required field: api_version"

  /** The form a manifest has once the optional fields are filled in: a type,
      an entry point and a capability map. */
  predicate Complete(m: Manifest) {
    m.id != "" && m.apiVersion != "" && m.pluginType != "" && m.entryPoint != ""
  }

  /** `LoadManifest`. */
  function LoadManifest(src: ManifestSource): (r: Result<Manifest>)
    ensures src.ReadFailed? ==> r == Err("failed to read plugin.json: " + src.readError)
    ensures src.ParseFailed? ==> r == Err("failed to parse plugin.json: " + src.parseError)
    ensures src.Parsed? && src.raw.id == "" ==> r == Err(MissingId)
    ensures src.Parsed? && src.raw.id != "" && src.raw.apiVersion == "" ==> r == Err(MissingApiVersion)
    ensures r.Ok? <==> src.Parsed? && src.raw.id != "" && src.raw.apiVersion != ""
    ensures r.Ok? ==> Complete(r.value)
    ensures r.Ok? ==> var (raw, m) := (src.raw, r.value);
      m.id == raw.id && m.name == raw.name && m.version == raw.version
      && m.description == raw.description && m.author == raw.author && m.license == raw.license
      && m.apiVersion == raw.apiVersion
      && m.pluginType == (if raw.pluginType == "" then DefaultPluginType else raw.pluginType)
      && m.entryPoint == (if raw.entryPoint == "" then DefaultEntryPoint else raw.entryPoint)
      && m.capabilities == (if raw.capabilities.None? then map[] else raw.capabilities.value)
  {
    match src
    case ReadFailed(e) => Err("failed to read plugin.json: " + e)
    case ParseFailed(e) => Err("failed to parse plugin.json: " + e)
    case Parsed(raw) =>
      if raw.id == "" then Err(MissingId)
      else if raw.apiVersion == "" then Err(MissingApiVersion)
      else
        Ok(Manifest(raw.id, raw.name, raw.version, raw.description, raw.author, raw.license,
                    raw.apiVersion,
                    if raw.pluginType == "" then DefaultPluginType else raw.pluginType,
                    if raw.entryPoint == "" then DefaultEntryPoint else raw.entryPoint,
                    if raw.capabilities.None? then map[] else raw.capabilities.value))
  }

  /** A manifest written back as `plugin.json`, every field present. */
  function Written(m: Manifest): RawManifest {
    RawManifest(m.id, m.name, m.version, m.description, m.author, m.license,
                m.apiVersion, m.pluginType, m.entryPoint, Some(m.capabilities))
  }

  /** Loading a loaded manifest again, written back with all its fields,
      gives the same manifest: the defaults are applied once and for all. */
  lemma LoadIsStable(src: ManifestSource)
    requires LoadManifest(src).Ok?
    ensures LoadManifest(Parsed(Written(LoadManifest(src).value))) == LoadManifest(src)
  {
  }

  /** Every complete manifest is what loading its written form gives. */
  lemma CompleteManifestsLoad(m: Manifest)
    requires Complete(m)
    ensures LoadManifest(Parsed(Written(m))) == Ok(m)
  {
  }

  /** The manifest a repository plugin needs at least: an id and an API
      version, everything else defaulted. */
  lemma MinimalManifest(id: string, api: string)
    requires id != "" && api != ""
    ensures var r := LoadManifest(Parsed(RawManifest(id, "", "", "", "", "", api, "", "", None)));
      r.Ok? && r.value.pluginType == "downloader" && r.value.entryPoint == "index.js"
      && r.value.capabilities == map[] && r.value.name == ""
  {
  }
}
