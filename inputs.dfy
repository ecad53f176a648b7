/** The immutable inputs of one request: the configuration file's record and
    the parts of the HTTP request the script reads from `$_SERVER` and `$_GET`. */
module Inputs {

  datatype Option<T> = None | Some(value: T)

  /** The `$config` array loaded from config.php. */
  datatype Config = Config(
    piwikUrl: string,
    idSite: string,
    piwikToken: string,
    defaultCampaign: string,
    imageExtensions: seq<string>)

  /** The request as the script sees it. `userAgent`, `https` and `referer`
      are `None` when the corresponding `$_SERVER` entry is not set;
      `requestUri` is `REQUEST_URI`, which includes any query string;
      `query` is `$_GET` restricted to its string-valued entries. */
  datatype Request = Request(
    remoteAddr: string,
    userAgent: Option<string>,
    https: Option<string>,
    serverName: string,
    requestUri: string,
    referer: Option<string>,
    query: map<string, string>)
}
