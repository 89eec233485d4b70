/**
 * The script's entry point (generate.py:212-267): fetch JoestarMarket, then
 * VmoranvMarket, and run the deduplicate/moderate/filter loop over both lists.
 * Writing `public/prompts.json` is the caller's business; an `Err` means the run
 * raised before the file was opened.
 */
module Program {
  import opened Wrappers
  import opened Json
  import opened Pipeline
  import opened Fetchers

  /** `all_prompts` after both `extend` calls: JoestarMarket's prompts first, then VmoranvMarket's. */
  function AllPrompts(pages: seq<Option<Json>>, response: Option<Json>): (r: Result<seq<Prompt>, Crash>)
  {
    match JoestarFrom(pages, 0)
    case Err(e) => Err(e)
    case Ok(joestar) =>
      match VmoranvGetPrompts(response)
      case Err(e) => Err(e)
      case Ok(vmoranv) => Ok(joestar + vmoranv)
  }

  /**
   * The whole run: the records written are the compliant prompts of the two
   * catalogs in fetch order; a failed VmoranvMarket request aborts the run.
   */
  method Run(pages: seq<Option<Json>>, response: Option<Json>, verdict: string -> bool)
    returns (r: Result<seq<Prompt>, Crash>)
    ensures r.Err? <==> AllPrompts(pages, response).Err?
    ensures r.Ok? ==> r.value == Output(AllPrompts(pages, response).value, verdict)
    ensures response.None? ==> r.Err?
  {
    var joestar, _ := JoestarGetPrompts(pages);
    if joestar.Err? {
      return Err(joestar.error);
    }
    var vmoranv := VmoranvGetPrompts(response);
    if vmoranv.Err? {
      return Err(vmoranv.error);
    }
    var allPrompts := joestar.value + vmoranv.value;
    var compliant, _ := Generate(allPrompts, verdict);
    r := Ok(compliant);
  }
}
