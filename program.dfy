/** The script's entry point: parse the invoice images, then chat only when at least
    one invoice was parsed, and otherwise print a warning and stop. */
module Program {
  import opened Options
  import ImageFiles
  import Extraction
  import Session

  /** What a run of the script does: the warning branch, or a chat session over the
      parsed data. */
  datatype Run<V> =
    | NoInvoiceData
    | Chatted(data: seq<V>, turns: seq<Session.Turn>, ending: Session.Ending)

  /** `parsed_data = parse_invoices_from_images(...)`, then `if not parsed_data`:
      a warning, else `start_chatbot(parsed_data)`. */
  method RunScript<V>(listing: seq<string>, respond: string -> Option<string>, parse: string -> Option<V>,
                      today: string, lines: seq<string>, ask: Session.Prompt<V> -> Option<string>)
    returns (run: Run<V>)
    ensures var parsed := Extraction.Collected(ImageFiles.SelectImages(listing), Extraction.Step(respond, parse));
            && (run.NoInvoiceData? <==> parsed == [])
            && (run.Chatted? ==> run.data == parsed)
    ensures run.Chatted? ==>
              && |run.turns| == Session.FirstExit(lines)
              && (run.ending == Session.Goodbye <==> Session.FirstExit(lines) < |lines|)
              && forall k :: 0 <= k < |run.turns| ==>
                   run.turns[k] == Session.Turn(lines[k], ask(Session.Prompt(today, run.data, lines[k])))
  {
    var parsedData := Extraction.ParseInvoicesFromImages(listing, respond, parse);
    if parsedData == [] {
      run := NoInvoiceData;
    } else {
      var turns, ending := Session.StartChatbot(parsedData, today, lines, ask);
      run := Chatted(parsedData, turns, ending);
    }
  }
}
