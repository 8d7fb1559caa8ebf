/** The file-name helper the plugin runtime exposes to plugins
    (`sanitizeFilename` of internal/plugins/api.go): each of nine characters
    that file systems reject becomes '-'. */
module PluginApi {
  import opened Strings

  /** `/ \ : * ? " < > |` */
  predicate Rejected(c: char) {
    c == '/' || c == '\\' || c == ':' || c == '*' || c == '?'
    || c == '"' || c == '<' || c == '>' || c == '|'
  }

  /** The nine `strings.ReplaceAll` calls, one per rejected character. */
  function SanitizeFilename(name: string): (r: string)
    ensures |r| == |name|
    ensures forall i :: 0 <= i < |name| && !Rejected(name[i]) ==> r[i] == name[i]
    ensures forall i :: 0 <= i < |name| && Rejected(name[i]) ==> r[i] == '-'
    ensures forall i :: 0 <= i < |r| ==> !Rejected(r[i])
  {
    ReplaceWhere(name, Rejected, '-')
  }

  /** Sanitising a sanitised name changes nothing. */
  lemma SanitizeIdempotent(name: string)
    ensures SanitizeFilename(SanitizeFilename(name)) == SanitizeFilename(name)
  {
  }

  /** A name without rejected characters is kept, and only such names are. */
  lemma SanitizeFixedPoints(name: string)
    ensures SanitizeFilename(name) == name <==> forall i :: 0 <= i < |name| ==> !Rejected(name[i])
  {
    if SanitizeFilename(name) == name {
      forall i | 0 <= i < |name| ensures !Rejected(name[i]) {
        assert SanitizeFilename(name)[i] == name[i];
      }
    }
  }
}
