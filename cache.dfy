/**
 * The dataset cache of the search modules: the module global `file_data`,
 * unloaded (`None`) or holding the text last fetched, and the refresh rule
 * `if REREAD_ON_QUERY or file_data is None: file_data = fetch_file_data(path)`.
 * The file's contents at the time of a call are the `source` input.
 */
module DatasetCache {
  import opened Wrappers

  /** The dataset a call works on: the source when it refreshes, otherwise the cached text. */
  function Refreshed(current: Option<string>, reread: bool, source: string): (data: string)
    ensures reread ==> data == source
    ensures current == None ==> data == source
    ensures !reread && current.Some? ==> data == current.value
  {
    if reread || current == None then source else current.value
  }

  class Cache {
    var fileData: Option<string>

    /** The module starts with `file_data = None`. */
    constructor ()
      ensures fileData == None
    {
      fileData := None;
    }

    /** Apply the refresh rule and return the dataset for this call. */
    method Resolve(reread: bool, source: string) returns (data: string)
      modifies this
      ensures data == Refreshed(old(fileData), reread, source)
      ensures fileData == Some(data)
    {
      if reread || fileData == None {
        fileData := Some(source);
      }
      data := fileData.value;
    }
  }

  /**
   * A lazy cache keeps serving the first text it loaded, whatever the
   * source holds later; an always-refresh call sees the current source.
   */
  method StaleAfterSourceChange(first: string, later: string) returns (lazy: string, eager: string)
    ensures lazy == first
    ensures eager == later
  {
    var c := new Cache();
    var loaded := c.Resolve(false, first);
    lazy := c.Resolve(false, later);
    eager := c.Resolve(true, later);
  }
}
