/** `start_chatbot`: read a question, stop on the sentinel `exit` (in any letter case),
    otherwise ask the chat model with the whole data set and today's date in the
    prompt, print its answer or the error, and read the next question. */
module Session {
  import opened Options
  import PyStr

  /** `question.lower() == 'exit'`, spelled out character by character and proved equal
      to the comparison of the lower-cased question: no trimming, so surrounding spaces
      make it a question. */
  predicate IsExit(question: string): (r: bool)
    ensures r <==> PyStr.Lower(question) == "exit"
  {
    var low := PyStr.Lower(question);
    assert |question| == 4 ==>
             && low[0] == PyStr.LowerChar(question[0]) && low[1] == PyStr.LowerChar(question[1])
             && low[2] == PyStr.LowerChar(question[2]) && low[3] == PyStr.LowerChar(question[3]);
    && |question| == 4
    && PyStr.LowerChar(question[0]) == 'e' && PyStr.LowerChar(question[1]) == 'x'
    && PyStr.LowerChar(question[2]) == 'i' && PyStr.LowerChar(question[3]) == 't'
  }

  /** What the chat model is asked on one turn: today's date, the invoice data and the
      question. The template text around them is constant. */
  datatype Prompt<V> = Prompt(today: string, data: seq<V>, question: string)

  /** One answered turn: the question and the model's reply, or `None` when the call
      raised and the error was printed instead. */
  datatype Turn = Turn(question: string, reply: Option<string>)

  /** How the loop ended: on the sentinel, or because `input()` found no more lines and
      raised, which nothing in the program catches. */
  datatype Ending = Goodbye | EndOfInput

  /** The index of the first sentinel among the input lines, or their number if there
      is none. */
  function FirstExit(lines: seq<string>): (k: nat)
    ensures k <= |lines|
    ensures k < |lines| ==> IsExit(lines[k])
    ensures forall j :: 0 <= j < k ==> !IsExit(lines[j])
  {
    if lines == [] then 0
    else if IsExit(lines[0]) then 0
    else 1 + FirstExit(lines[1..])
  }

  /** There is a first sentinel exactly when some line is a sentinel. */
  lemma FirstExitFound(lines: seq<string>)
    ensures FirstExit(lines) < |lines| <==> exists k :: 0 <= k < |lines| && IsExit(lines[k])
  {
    if exists k :: 0 <= k < |lines| && IsExit(lines[k]) {
      var k :| 0 <= k < |lines| && IsExit(lines[k]);
      assert FirstExit(lines) <= k;
    }
  }

  /** The sentinel in any letter case ends the session; with a space around it, it does
      not. */
  lemma SentinelExamples()
    ensures IsExit("exit") && IsExit("EXIT") && IsExit("Exit")
    ensures !IsExit(" exit") && !IsExit("exit ") && !IsExit("quit")
  {
  }

  /** The chat loop over the lines the user types. Every line before the first sentinel
      is asked, in order and with the same date and data; the sentinel line is not
      asked and nothing after it is read. */
  method StartChatbot<V>(invoiceData: seq<V>, today: string, lines: seq<string>, ask: Prompt<V> -> Option<string>)
    returns (turns: seq<Turn>, ending: Ending)
    ensures |turns| == FirstExit(lines)
    ensures forall k :: 0 <= k < |turns| ==>
              turns[k] == Turn(lines[k], ask(Prompt(today, invoiceData, lines[k])))
    ensures ending == Goodbye <==> FirstExit(lines) < |lines|
  {
    turns := [];
    var i := 0;
    while true
      invariant 0 <= i <= |lines|
      invariant forall j :: 0 <= j < i ==> !IsExit(lines[j])
      invariant |turns| == i
      invariant forall k :: 0 <= k < i ==> turns[k] == Turn(lines[k], ask(Prompt(today, invoiceData, lines[k])))
      decreases |lines| - i
    {
      if i == |lines| {
        ending := EndOfInput;
        break;
      }
      var userQuestion := lines[i];
      if IsExit(userQuestion) {
        ending := Goodbye;
        break;
      }
      var reply := ask(Prompt(today, invoiceData, userQuestion));
      turns := turns + [Turn(userQuestion, reply)];
      i := i + 1;
    }
  }
}
