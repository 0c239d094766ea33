/**
 * The `/api/textpro` handler as one decision procedure over an abstract
 * browser session: validate, launch, fill, click, extract, close, respond.
 *
 * The browser is abstracted to the data it yields (`Page`); the one thing
 * the model keeps about the session itself is whether it was launched, how
 * often it was closed and whether it is left open. A thrown exception is
 * modelled as the `Stage` whose browser call throws; its message is not.
 */
module Handler {
  import opened Wrappers
  import opened Catalog
  import Fragments
  import opened Buttons
  import opened Images

  /**
   * The template page as the handler sees it: the text fields matched by
   * `[name="text[]"], input[type=text], textarea` with their current
   * values, the clickable elements, and the images present after the fixed
   * wait that follows the click. All in document order.
   */
  datatype Page = Page(fields: seq<string>, controls: seq<Control>, images: seq<Image>)

  /**
   * Where a browser call throws: launching; opening, setting up and loading
   * the page or querying its fields; typing; clicking or waiting;
   * extracting the image; closing the browser after extraction.
   */
  datatype Stage = Launch | Load | Type | Submit | Extract | Close

  datatype Body =
    | Generated(status: string, templateId: string, url: string)
    | Error(error: string)
      /** `{error: "Error", details: err.message}`; the message itself is not modelled. */
    | Failure(error: string)

  datatype Response = Response(code: nat, body: Body)

  /**
   * The response together with what happened to the browser: whether it
   * was launched, how many `close` calls were made, whether it is left
   * running, the field values once the fill loop completed and the click
   * once the button step completed.
   */
  datatype Outcome = Outcome(
    response: Response,
    launched: bool,
    closeCalls: nat,
    browserOpen: bool,
    filled: Option<seq<string>>,
    click: Option<Click>)

  const InvalidIdMessage: string := "Invalid or missing id"
  const MissingTextMessage: string := "Missing text parameter"
  const InputNotFoundMessage: string := "Input field not found"
  const GenerationFailedMessage: string := "Failed to generate image"
  const FaultMessage: string := "Error"

  function RejectionMessage(e: RequestError): string {
    match e
    case InvalidOrMissingId => InvalidIdMessage
    case MissingText => MissingTextMessage
  }

  /**
   * The `catch` block: close the browser if it was launched, answer 500.
   * `closeCalls` counts the calls made before the failure as well.
   */
  function Caught(launched: bool, priorCloses: nat, filled: Option<seq<string>>, click: Option<Click>): Outcome {
    Outcome(Response(500, Failure(FaultMessage)), launched,
            priorCloses + (if launched then 1 else 0), false, filled, click)
  }

  /** The request passes validation and the browser gets far enough to query the page's fields. */
  predicate ReachesFields(req: Request, fault: Option<Stage>) {
    Validate(req).Accepted? && fault != Some(Launch) && fault != Some(Load)
  }

  /** Everything up to and including extraction succeeds: the `browser.close()` call after it is reached. */
  predicate ReachesClose(req: Request, page: Page, fault: Option<Stage>) {
    ReachesFields(req, fault) && |page.fields| > 0 &&
    fault != Some(Type) && fault != Some(Submit) && fault != Some(Extract)
  }

  /**
   * The handler as written. Only 200, 400 and 500 are answered; 400 exactly
   * for a rejected request, before any browser exists; 200 exactly when the
   * whole choreography runs without a fault and an image qualifies. The
   * browser is left running exactly on the "Input field not found" path.
   */
  function Handle(req: Request, page: Page, fault: Option<Stage>): (o: Outcome)
    ensures o.response.code == 200 || o.response.code == 400 || o.response.code == 500
    ensures o.response.code == 400 <==> Validate(req).Rejected?
    ensures o.response.code == 400 ==> !o.launched && o.closeCalls == 0
    ensures o.response.code == 200 <==>
      ReachesClose(req, page, fault) && fault.None? && SelectImage(page.images).Some?
    ensures o.browserOpen <==> ReachesFields(req, fault) && |page.fields| == 0
    ensures o.browserOpen ==> o.launched
  {
    match Validate(req)
    case Rejected(e) =>
      Outcome(Response(400, Error(RejectionMessage(e))), false, 0, false, None, None)
    case Accepted(id, _, text) =>
      if fault == Some(Launch) then Caught(false, 0, None, None)
      else if fault == Some(Load) then Caught(true, 0, None, None)
      else
        var parts := Fragments.Split(text, Fragments.Delimiter);
        if |page.fields| == 0 then
          Outcome(Response(500, Error(InputNotFoundMessage)), true, 0, true, None, None)
        else if fault == Some(Type) then Caught(true, 0, None, None)
        else
          var filled := Fragments.Fill(page.fields, parts);
          if fault == Some(Submit) then Caught(true, 0, Some(filled), None)
          else
            var click := ChooseButton(page.controls);
            if fault == Some(Extract) then Caught(true, 0, Some(filled), Some(click))
            else match fault
              // The one stage left is `Close`: the close after extraction threw.
              case Some(_) => Caught(true, 1, Some(filled), Some(click))
              case None =>
                match SelectImage(page.images)
                case None =>
                  Outcome(Response(500, Error(GenerationFailedMessage)), true, 1, false, Some(filled), Some(click))
                case Some(k) =>
                  Outcome(Response(200, Generated("success", id, page.images[k].src)), true, 1, false, Some(filled), Some(click))
  }

  /**
   * A rejected request is answered 400 with its reason, the id reason
   * taking precedence; no browser is launched, nothing typed or clicked.
   */
  lemma RejectionsLaunchNothing(req: Request, page: Page, fault: Option<Stage>)
    requires !Truthy(req.id) || !IsKnownId(req.id.value) || !Truthy(req.text)
    ensures var o := Handle(req, page, fault);
      && o.response.code == 400
      && o.response.body == Error(if !Truthy(req.id) || !IsKnownId(req.id.value)
                                  then InvalidIdMessage else MissingTextMessage)
      && !o.launched && !o.browserOpen && o.filled.None? && o.click.None?
  {
  }

  /**
   * As written, a page without fields is answered 500 "Input field not
   * found" with nothing typed or clicked, and the launched browser is
   * never closed.
   */
  lemma MissingInputsLeaveBrowserOpen(req: Request, page: Page, fault: Option<Stage>)
    requires ReachesFields(req, fault) && |page.fields| == 0
    ensures var o := Handle(req, page, fault);
      && o.response == Response(500, Error(InputNotFoundMessage))
      && o.filled.None? && o.click.None?
      && o.launched && o.closeCalls == 0 && o.browserOpen
  {
  }

  /** A concrete request that leaks a browser: template 1, a page with no text fields. */
  lemma MissingInputsLeakExample()
    ensures Handle(Request(Some("1"), Some("Hello")), Page([], [], []), None).browserOpen
  {
  }

  /**
   * Success: the body carries "success", the requested template id and the
   * `src` of the first largest qualifying image; the fields hold the
   * fragments of the text, the button step ran, and the browser was closed
   * exactly once.
   */
  lemma SuccessResponse(req: Request, page: Page)
    requires Handle(req, page, None).response.code == 200
    ensures var o := Handle(req, page, None);
      && o.response.body.Generated?
      && o.response.body.status == "success"
      && Some(o.response.body.templateId) == req.id
      && SelectImage(page.images).Some?
      && IsFirstLargestCandidate(page.images, SelectImage(page.images).value)
      && o.response.body.url == page.images[SelectImage(page.images).value].src
      && o.launched && o.closeCalls == 1 && !o.browserOpen
      && o.filled == Some(Fragments.Fill(page.fields, Fragments.Split(req.text.value, Fragments.Delimiter)))
      && o.click == Some(ChooseButton(page.controls))
  {
  }

  /** No qualifying image: 500 "Failed to generate image", after the browser was closed once. */
  lemma NoImageResponse(req: Request, page: Page)
    requires ReachesClose(req, page, None)
    requires forall j :: 0 <= j < |page.images| ==> !IsCandidate(page.images[j])
    ensures var o := Handle(req, page, None);
      && o.response == Response(500, Error(GenerationFailedMessage))
      && o.closeCalls == 1 && !o.browserOpen
  {
  }

  /**
   * A thrown error on an accepted request is answered 500 "Error". The
   * browser is closed once if it had been launched, not at all if the
   * launch itself threw, and a second time if the first close threw.
   */
  lemma FaultResponse(req: Request, page: Page, stage: Stage)
    requires Validate(req).Accepted?
    requires stage == Launch || stage == Load || |page.fields| > 0
    ensures var o := Handle(req, page, Some(stage));
      && o.response == Response(500, Failure(FaultMessage))
      && o.launched == (stage != Launch)
      && o.closeCalls == (match stage case Launch => 0 case Close => 2 case _ => 1)
      && !o.browserOpen
  {
  }

  /**
   * The handler with the missing release added: the early return for a
   * page without fields closes the browser like every other path. The
   * response is unchanged.
   */
  function HandleReleasing(req: Request, page: Page, fault: Option<Stage>): (o: Outcome)
    ensures o.response == Handle(req, page, fault).response
    ensures !o.browserOpen
    ensures o.launched ==> o.closeCalls >= 1
  {
    var o := Handle(req, page, fault);
    if o.browserOpen then o.(closeCalls := 1, browserOpen := false) else o
  }
}
