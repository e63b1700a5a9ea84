/**
 * The configuration value the firewall works from: read once at startup, then
 * completed with the compiled patterns of every watched file.
 */
module Config {
  import opened Wrappers

  /** The accept and reject patterns of one watched file, in configured order. */
  datatype FileConfig = FileConfig(accept: seq<string>, reject: seq<string>)

  /**
   * A compiled regular expression, known by the source text it was compiled
   * from. The regular-expression engine itself is not modelled.
   */
  datatype Regexp = Regexp(source: string)

  /**
   * re.FindStringSubmatch(line): None when the expression does not match,
   * otherwise the whole match followed by the text of each group.
   */
  type Finder = (Regexp, string) -> Option<seq<string>>

  datatype Config = Config(
    files: map<string, FileConfig>,
    acceptRegexps: map<string, seq<Regexp>>,
    rejectRegexps: map<string, seq<Regexp>>,
    name: string,
    path: string,
    rejectBitLen: int,
    rejectTimeout: int)

  /** `m[path]` in Go: a missing key reads as the empty (nil) list. */
  function Patterns(m: map<string, seq<Regexp>>, path: string): seq<Regexp> {
    if path in m then m[path] else []
  }
}
