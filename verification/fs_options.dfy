/**
  Process-wide filesystem options and their per-call overrides.
  A per-call field that is given wins; an absent one falls back to the
  process-wide value.
*/
module FsOptions {
  import opened Wrappers

  datatype Config = Config(encoding: string, overwrite: bool, recursive: bool, moveToTrash: bool)

  /** The options the service is built with when none are supplied. */
  const DefaultConfig: Config := Config("utf8", false, true, true)

  /** The sparse options object an operation may be given. */
  datatype CallOptions = CallOptions(
    encoding: Option<string>,
    overwrite: Option<bool>,
    recursive: Option<bool>,
    moveToTrash: Option<bool>,
    content: Option<string>)

  const NoOptions: CallOptions := CallOptions(None, None, None, None, None)

  function DoGetEncoding(cfg: Config, o: CallOptions): string {
    o.encoding.GetOr(cfg.encoding)
  }

  function DoGetOverwrite(cfg: Config, o: CallOptions): bool {
    o.overwrite.GetOr(cfg.overwrite)
  }

  function DoGetRecursive(cfg: Config, o: CallOptions): bool {
    o.recursive.GetOr(cfg.recursive)
  }

  function DoGetMoveToTrash(cfg: Config, o: CallOptions): bool {
    o.moveToTrash.GetOr(cfg.moveToTrash)
  }

  /** The content a new file receives: the given text, or the empty string. */
  function DoGetContent(o: CallOptions): string {
    o.content.GetOr("")
  }

  /** The options an operation actually runs with. */
  function Effective(cfg: Config, o: CallOptions): (r: Config)
    ensures o.encoding.Some? ==> r.encoding == o.encoding.value
    ensures o.encoding.None? ==> r.encoding == cfg.encoding
    ensures o.overwrite.Some? ==> r.overwrite == o.overwrite.value
    ensures o.overwrite.None? ==> r.overwrite == cfg.overwrite
    ensures o.recursive.Some? ==> r.recursive == o.recursive.value
    ensures o.recursive.None? ==> r.recursive == cfg.recursive
    ensures o.moveToTrash.Some? ==> r.moveToTrash == o.moveToTrash.value
    ensures o.moveToTrash.None? ==> r.moveToTrash == cfg.moveToTrash
  {
    Config(DoGetEncoding(cfg, o), DoGetOverwrite(cfg, o), DoGetRecursive(cfg, o), DoGetMoveToTrash(cfg, o))
  }

  /**
    Without per-call options the process defaults apply unchanged; resolving
    again with the same options changes nothing; and a fully specified call
    does not depend on the process options at all.
  */
  lemma EffectiveLaws(cfg: Config, other: Config, o: CallOptions)
    ensures Effective(cfg, NoOptions) == cfg
    ensures Effective(DefaultConfig, NoOptions) == Config("utf8", false, true, true)
    ensures Effective(Effective(cfg, o), o) == Effective(cfg, o)
    ensures o.encoding.Some? && o.overwrite.Some? && o.recursive.Some? && o.moveToTrash.Some? ==>
      Effective(cfg, o) == Effective(other, o)
    ensures DoGetContent(NoOptions) == ""
  {
  }
}
