/** The decision logic of `KeywordQueryEventListener.on_event` (main.py lines
    46-125): from the typed argument, the outcome of the one HTTP request and
    the decoded completions, to the list of result items shown to the user.

    The HTTP call is the function parameter `post`, so the model says which
    request body is sent and what is done with each outcome, not how the
    network behaves. JSON decoding is outside the model: a delivered response
    is its `str()` rendering plus the sequence of completions found under
    `['results'][0]['text']`, each of which either yields its `text` or fails
    with an error message. */
module Handler {
  import opened Wrappers
  import Wrap

  /** `EXTENSION_ICON`, the icon every item shows. */
  const ExtensionIcon: string := "images/icon.png"

  const PlaceholderTitle: string := "Type in a prompt..."
  const AssistantTitle: string := "Assistant"
  const RequestFailedPrefix: string := "Request failed: "
  const ParseFailedPrefix: string := "Failed to parse response: "

  /** The fixed generation parameters of the request body. */
  const MaxNewTokens: int := 46
  const AutoMaxNewTokens: bool := false
  const MaxTokensSecond: int := 0

  /** What activating an item does: nothing, or copy a string. */
  datatype Action = DoNothing | CopyToClipboard(text: string)

  /** An `ExtensionResultItem`; `description` is absent when not given. */
  datatype ResultItem = ResultItem(icon: string, name: string, description: Option<string>, onEnter: Action)

  /** The JSON body of the POST request. */
  datatype RequestBody = RequestBody(prompt: string, maxNewTokens: int, autoMaxNewTokens: bool, maxTokensSecond: int)

  /** One completion: either `choice['text']` is a string, or taking it (or
      wrapping it) raises, with `str(err)` as the message. */
  datatype Choice = TextChoice(text: string) | BadChoice(error: string)

  /** A decoded response: how `str(response)` renders it, and its
      completions in order. */
  datatype Response = Response(shown: string, choices: seq<Choice>)

  /** The outcome of `requests.post`: a response, or an exception whose
      `str(err)` is `error`. As written, main.py line 96 calls `.json()` again
      on the already decoded dict and raises outside any `try`, so the code
      never gets past it; `Delivered` models what that line evidently
      intends, the decoded response. */
  datatype Transport = Delivered(response: Response) | Failed(error: string)

  /** The input gate: `event.get_argument()` is `None` or a string, and both
      `None` and the empty string count as nothing typed. A string of spaces
      is a prompt. */
  function Prompt(argument: Option<string>): (prompt: Option<string>)
    ensures prompt.None? <==> argument == None || argument == Some("")
    ensures prompt.Some? ==> prompt == argument
  {
    match argument
    case None => None
    case Some(s) => if s == "" then None else Some(s)
  }

  /** The request body for a prompt; everything but the prompt is fixed. */
  function BuildRequest(prompt: string): RequestBody {
    RequestBody(prompt, MaxNewTokens, AutoMaxNewTokens, MaxTokensSecond)
  }

  /** The item shown while nothing is typed. */
  function Placeholder(): ResultItem {
    ResultItem(ExtensionIcon, PlaceholderTitle, None, DoNothing)
  }

  /** The item shown when the request raises. */
  function RequestFailed(error: string): ResultItem {
    ResultItem(ExtensionIcon, RequestFailedPrefix + error, None, CopyToClipboard(error))
  }

  /** The item for one completion: its wrapped text is both the description
      and what is copied. */
  function Assistant(message: string): ResultItem {
    ResultItem(ExtensionIcon, AssistantTitle, Some(message), CopyToClipboard(message))
  }

  /** The item shown when mapping the completions raises. */
  function ParseFailed(shown: string, error: string): ResultItem {
    ResultItem(ExtensionIcon, ParseFailedPrefix + shown, None, CopyToClipboard(error))
  }

  /** The `for choice in choices` loop inside its `try`: one item per
      completion, in order, each holding the completion's text wrapped to
      `width` columns; or, as soon as one completion fails, that failure and
      no items at all. */
  function MapChoices(choices: seq<Choice>, width: int): (r: Result<seq<ResultItem>, string>)
    ensures r.Success? <==> forall k :: 0 <= k < |choices| ==> choices[k].TextChoice?
    ensures r.Success? ==> |r.value| == |choices|
    ensures r.Success? ==> forall k :: 0 <= k < |choices| ==>
      r.value[k] == Assistant(Wrap.WrapText(choices[k].text, width))
    ensures r.Failure? ==> exists k :: (0 <= k < |choices| && choices[k] == BadChoice(r.error) &&
      (forall j :: 0 <= j < k ==> choices[j].TextChoice?))
    decreases |choices|
  {
    if choices == [] then Success([])
    else match choices[0]
      case BadChoice(e) => Failure(e)
      case TextChoice(t) =>
        match MapChoices(choices[1..], width)
        case Failure(e) => Failure(e)
        case Success(rest) => Success([Assistant(Wrap.WrapText(t, width))] + rest)
  }

  /** The items for a delivered response (lines 100-116 and 125). When
      every completion yields text there is one "Assistant" item per
      completion, in order, each describing and copying the same wrapped
      text; otherwise there is exactly one item, titled with the rendered
      response and copying the first failure's error. */
  function RenderResponse(response: Response, width: int): (items: seq<ResultItem>)
    ensures forall k :: 0 <= k < |items| ==> items[k].icon == ExtensionIcon
    ensures (forall k :: 0 <= k < |response.choices| ==> response.choices[k].TextChoice?) ==>
      && |items| == |response.choices|
      && forall k :: 0 <= k < |response.choices| ==>
           && items[k].name == "Assistant"
           && items[k].description == Some(Wrap.WrapText(response.choices[k].text, width))
           && items[k].onEnter == CopyToClipboard(Wrap.WrapText(response.choices[k].text, width))
    // All or nothing: the first completion that fails decides the one item,
    // which shows the whole response and copies that completion's error.
    ensures forall k :: (0 <= k < |response.choices| && response.choices[k].BadChoice? &&
                         (forall j :: 0 <= j < k ==> response.choices[j].TextChoice?)) ==>
        items == [ResultItem(ExtensionIcon, "Failed to parse response: " + response.shown, None,
                             CopyToClipboard(response.choices[k].error))]
  {
    match MapChoices(response.choices, width)
    case Success(items) => items
    case Failure(e) => [ParseFailed(response.shown, e)]
  }

  /** The items for one keyword query. `post` stands for the HTTP request and
      `width` for the wrap width the source leaves undefined. */
  function OnEvent(argument: Option<string>, post: RequestBody -> Transport, width: int): (items: seq<ResultItem>)
    ensures forall k :: 0 <= k < |items| ==> items[k].icon == ExtensionIcon
    // Nothing typed: only the placeholder, whatever the transport would do.
    ensures argument == None || argument == Some("") ==>
      items == [ResultItem(ExtensionIcon, "Type in a prompt...", None, DoNothing)]
    // Otherwise one request, carrying the prompt and the fixed parameters.
    ensures argument.Some? && argument.value != "" ==>
      var outcome := post(RequestBody(argument.value, 46, false, 0));
      && (outcome.Failed? ==>
            items == [ResultItem(ExtensionIcon, "Request failed: " + outcome.error, None,
                                 CopyToClipboard(outcome.error))])
      && (outcome.Delivered? ==> items == RenderResponse(outcome.response, width))
  {
    match Prompt(argument)
    case None => [Placeholder()]
    case Some(prompt) =>
      match post(BuildRequest(prompt))
      case Failed(e) => [RequestFailed(e)]
      case Delivered(response) => RenderResponse(response, width)
  }
}
