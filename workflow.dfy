/** The two network workflows of the store: loading the catalog when the plugin starts,
    and installing a snippet when its Install button is clicked. The reachability probe
    and the timed fetch are not modelled; their results are inputs: `online` is what the
    probe answered, and `fetch` says what requesting a URL produced. */
module Workflow {
  import opened Wrappers
  import opened Catalog
  import opened Storage
  import opened SnippetStore

  const CatalogUrl := "https://raw.githubusercontent.com/xavwe/obsidian-css-snippet-store/main/snippets.json"

  /** Where a snippet's stylesheet is fetched from, spelled out as the Install button
      builds it; it is the file "snippet.css" in the folder that README images are
      resolved against. */
  function AssetUrl(snippet: Snippet): (url: string)
    ensures url == RawBase(snippet) + "snippet.css"
  {
    "https://raw.githubusercontent.com/" + snippet.repo + "/refs/heads/main/" + snippet.folder + "/snippet.css"
  }

  /** Reading a response body (`text()` or `json()`), which may throw. */
  datatype Body<T> = Read(value: T) | ReadThrew(message: string)

  /** What a timed fetch produced: it threw (network error or time-out), or it
      responded with a status and a body. */
  datatype Fetched<T> =
    | Threw(message: string)
    | Responded(ok: bool, statusText: string, body: Body<T>)

  /** The notices a workflow shows when it stops early. */
  datatype Notice = NoInternet | ResponseNotOk(statusText: string) | Error(message: string)

  datatype Step<T> = Proceed(value: T) | Stop(notice: Notice)

  /** The gate both workflows apply to a download: go on with the body only when the
      probe found the network, the response is ok and its body could be read. */
  function Admit<T>(online: bool, fetched: Fetched<T>): (step: Step<T>)
    ensures step.Proceed? <==> online && fetched.Responded? && fetched.ok && fetched.body.Read?
    ensures step.Proceed? ==> step.value == fetched.body.value
    ensures !online ==> step == Stop(NoInternet)
    ensures online && fetched.Responded? && !fetched.ok ==> step == Stop(ResponseNotOk(fetched.statusText))
    ensures step.Stop? && online && !(fetched.Responded? && !fetched.ok) ==> step.notice.Error?
  {
    if !online then Stop(NoInternet)
    else match fetched
      case Threw(message) => Stop(Error(message))
      case Responded(ok, statusText, body) =>
        if !ok then Stop(ResponseNotOk(statusText))
        else match body
          case ReadThrew(message) => Stop(Error(message))
          case Read(value) => Proceed(value)
  }

  /** The plugin: it holds the catalog for the session. */
  class CssSnippetStore {
    var snippets: seq<Snippet>

    constructor ()
      ensures snippets == []
    {
      snippets := [];
    }

    /** `onload`: fetch the catalog once; it is replaced only when the probe found the
        network and the response was ok and parsed, and otherwise keeps its value. */
    method OnLoad(online: bool, fetch: string -> Fetched<seq<Snippet>>) returns (notice: Option<Notice>)
      modifies this
      ensures var step := Admit(online, fetch(CatalogUrl));
              && snippets == (if step.Proceed? then step.value else old(snippets))
              && notice == (if step.Proceed? then None else Some(step.notice))
    {
      if online {
        var fetched := fetch(CatalogUrl);
        if fetched.Threw? {
          return Some(Error(fetched.message));
        }
        if !fetched.ok {
          return Some(ResponseNotOk(fetched.statusText));
        }
        if fetched.body.ReadThrew? {
          return Some(Error(fetched.body.message));
        }
        snippets := fetched.body.value;
        return None;
      } else {
        return Some(NoInternet);
      }
    }
  }

  /** What an Install click ends with: the store's outcome, or a notice shown before
      anything was written. */
  datatype ClickResult = Stored(outcome: InstallOutcome) | Stopped(notice: Notice)

  /** The Install button: download the snippet's stylesheet and install it. Storage is
      written only when the download was admitted. */
  method InstallClick(vault: Vault, snippet: Snippet, online: bool, fetch: string -> Fetched<string>)
    returns (result: ClickResult)
    modifies vault
    ensures var step := Admit(online, fetch(AssetUrl(snippet)));
            && (step.Stop? ==> result == Stopped(step.notice) && vault.entries == old(vault.entries))
            && (step.Proceed? ==>
                  && result.Stored?
                  && (vault.entries, result.outcome)
                     == InstallEffect(old(vault.entries), vault.configDir, snippet.id, step.value))
  {
    if online {
      var fetched := fetch(AssetUrl(snippet));
      if fetched.Threw? {
        return Stopped(Error(fetched.message));
      }
      if !fetched.ok {
        return Stopped(ResponseNotOk(fetched.statusText));
      }
      if fetched.body.ReadThrew? {
        return Stopped(Error(fetched.body.message));
      }
      var outcome := Install(vault, snippet.id, fetched.body.value);
      return Stored(outcome);
    } else {
      return Stopped(NoInternet);
    }
  }
}
