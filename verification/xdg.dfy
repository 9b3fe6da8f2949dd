/**
 The XDG Base Directory rule for `XDG_DATA_HOME` and `XDG_CACHE_HOME`
 (section "Environment variables" of the XDG Base Directory Specification):
 a variable that is unset or set to the empty string means its default under
 the home directory.  The environment is passed in as a value.
 */
module Xdg {
  import opened Bytes
  import opened Wrappers

  const DataHomeDefault: Bytes := "/.local/share"
  const CacheHomeDefault: Bytes := "/.cache"

  /** The value of a variable when it is set and non-empty, otherwise `home + suffix`. */
  function BaseDirectory(variable: Option<Bytes>, home: Bytes, suffix: Bytes): (dir: Bytes)
    requires |suffix| > 0
    ensures |dir| > 0
    ensures variable.Some? && variable.value != [] ==> dir == variable.value
    ensures variable.None? || variable.value == [] ==> dir == home + suffix
  {
    match variable
    case Some(v) => if v == [] then home + suffix else v
    case None => home + suffix
  }

  /** `xdg_data_home`: `$XDG_DATA_HOME`, or `$HOME/.local/share` when that is unset or empty. */
  function DataHome(xdgDataHome: Option<Bytes>, home: Bytes): (dir: Bytes)
    ensures |dir| > 0
    ensures xdgDataHome.Some? && xdgDataHome.value != [] ==> dir == xdgDataHome.value
    ensures xdgDataHome.None? || xdgDataHome.value == [] ==> dir == home + "/.local/share"
  {
    BaseDirectory(xdgDataHome, home, DataHomeDefault)
  }

  /** `xdg_cache_home`: `$XDG_CACHE_HOME`, or `$HOME/.cache` when that is unset or empty. */
  function CacheHome(xdgCacheHome: Option<Bytes>, home: Bytes): (dir: Bytes)
    ensures |dir| > 0
    ensures xdgCacheHome.Some? && xdgCacheHome.value != [] ==> dir == xdgCacheHome.value
    ensures xdgCacheHome.None? || xdgCacheHome.value == [] ==> dir == home + "/.cache"
  {
    BaseDirectory(xdgCacheHome, home, CacheHomeDefault)
  }

  /**
   Exporting the resolved directory as the variable changes nothing: the
   resolution is a fixed point, and an empty variable behaves like an unset one.
   */
  lemma BaseDirectoryStable(variable: Option<Bytes>, home: Bytes, suffix: Bytes)
    requires |suffix| > 0
    ensures BaseDirectory(Some(BaseDirectory(variable, home, suffix)), home, suffix)
            == BaseDirectory(variable, home, suffix)
    ensures BaseDirectory(Some([]), home, suffix) == BaseDirectory(None, home, suffix)
  {
  }
}
