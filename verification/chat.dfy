/** The conversation step function behind `POST /api/chat`: from the
    visitor's message and the step the client says it is in, it computes the
    reply, the next step and the data handed back to the client. It reads and
    writes no state. */
module Chat {
  import opened Optional
  import Text
  import Catalogue

  /** The reply texts, as tags (the emoji-decorated wording is not modelled). */
  datatype Prompt =
    | Silent                 // the empty response of the fall-through case
    | WelcomeMenu            // welcome text listing the three choices
    | ServicePrompt          // "Select a service:"
    | RescheduleEmailPrompt  // asks for the email of the booking to move
    | CancelEmailPrompt      // asks for the email of the booking to drop

  /** The steps the server hands back. */
  datatype NextStep = Menu | SelectService | FetchAppointments | FetchCancelAppointments
  {
    /** The step name the client receives in `nextStep`. */
    function Name(): string
    {
      match this
      case Menu => "menu"
      case SelectService => "select_service"
      case FetchAppointments => "fetch_appointments"
      case FetchCancelAppointments => "fetch_cancel_appointments"
    }
  }

  /** `{response, nextStep, data}`: `services` is `data.services` when it is set. */
  datatype Reply = Reply(response: Prompt, nextStep: NextStep, services: Option<seq<Catalogue.Service>>)

  /** The two step names on which the server answers with the menu. */
  predicate IsMenuStep(step: string)
  {
    step == "greeting" || step == "menu"
  }

  /** A message selects a keyword branch when it is exactly the digit, or
      when its lower-cased text contains the word anywhere. */
  ghost predicate Selects(message: string, digit: string, word: string)
  {
    message == digit || Text.Occurs(word, Text.Lower(message))
  }

  ghost predicate WantsBooking(message: string)    { Selects(message, "1", "book") }
  ghost predicate WantsReschedule(message: string) { Selects(message, "2", "reschedule") }
  ghost predicate WantsCancel(message: string)     { Selects(message, "3", "cancel") }

  const Welcome := Reply(WelcomeMenu, Menu, None)
  const Fallthrough := Reply(Silent, Menu, None)

  function Matches(message: string, digit: string, word: string): (b: bool)
    ensures b <==> Selects(message, digit, word)
  {
    message == digit || Text.Includes(Text.Lower(message), word)
  }

  /** One chat turn. */
  function Advance(message: string, step: string): (r: Reply)
    // menu and greeting steps: the welcome menu, whatever the message says
    ensures IsMenuStep(step) ==> r == Welcome
    // every other step: the keywords, tried in priority order book, reschedule, cancel
    ensures !IsMenuStep(step) ==>
      && (r.nextStep == SelectService <==> WantsBooking(message))
      && (r.nextStep == FetchAppointments <==> !WantsBooking(message) && WantsReschedule(message))
      && (r.nextStep == FetchCancelAppointments <==>
            !WantsBooking(message) && !WantsReschedule(message) && WantsCancel(message))
      && (r.nextStep == Menu <==> r == Fallthrough)
    // only the booking branch carries data, and then it is the whole catalogue
    ensures r.services.Some? <==> r.nextStep == SelectService
    ensures r.services.Some? ==> r.services.value == Catalogue.Services
    // the text always goes with the step
    ensures r.nextStep == SelectService ==> r.response == ServicePrompt
    ensures r.nextStep == FetchAppointments ==> r.response == RescheduleEmailPrompt
    ensures r.nextStep == FetchCancelAppointments ==> r.response == CancelEmailPrompt
  {
    if IsMenuStep(step) then Welcome
    else if Matches(message, "1", "book") then Reply(ServicePrompt, SelectService, Some(Catalogue.Services))
    else if Matches(message, "2", "reschedule") then Reply(RescheduleEmailPrompt, FetchAppointments, None)
    else if Matches(message, "3", "cancel") then Reply(CancelEmailPrompt, FetchCancelAppointments, None)
    else Fallthrough
  }

  /** The keyword match ignores ASCII case: a message and its lower-cased
      form get the same reply in every step. */
  lemma CaseInsensitive(message: string, step: string)
    ensures Advance(Text.Lower(message), step) == Advance(message, step)
  {
    Text.LowerIdempotent(message);
    Text.LowerFixesNonLetters(message, "1");
    Text.LowerFixesNonLetters(message, "2");
    Text.LowerFixesNonLetters(message, "3");
  }

  /** In the menu and greeting steps the message is never looked at. */
  lemma MenuIgnoresMessage(m1: string, m2: string, step: string)
    requires IsMenuStep(step)
    ensures Advance(m1, step) == Advance(m2, step) == Welcome
  {
  }

  /** "1" sent in the menu step gets the menu again, not the service list:
      the step test comes before the keyword tests. */
  lemma DigitInMenuStepRepeatsMenu()
    ensures Advance("1", "menu") == Welcome
    ensures Advance("1", "select_service").nextStep == SelectService
  {
  }

  /** Outside the menu and greeting steps, a message that names both booking
      and cancelling is taken as a booking: the book test comes first. */
  lemma BookingWinsOverCancel(message: string, step: string)
    requires !IsMenuStep(step) && WantsBooking(message) && WantsCancel(message)
    ensures Advance(message, step).nextStep == SelectService
  {
  }

  /** Such messages exist: "Cancel my Booking" in step `select_service` is a
      booking, while in step `menu` it gets the menu like any message. */
  lemma CancelMyBooking()
    ensures WantsBooking("Cancel my Booking") && WantsCancel("Cancel my Booking")
    ensures Advance("Cancel my Booking", "select_service").nextStep == SelectService
    ensures Advance("Cancel my Booking", "menu").nextStep == Menu
  {
    var m := Text.Lower("Cancel my Booking");
    assert m[10..14] == "book";
    assert Text.OccursAt("book", m, 10);
    assert m[0..6] == "cancel";
    assert Text.OccursAt("cancel", m, 0);
  }

  /* ---------------- the menu step, as written and as intended ---------------- */

  /** As written, a chat turn in the menu step never leaves the menu,
      whatever the visitor types; the client starts in that step and is
      sent back to it, so the keyword branches are out of its reach. */
  lemma MenuStepNeverAdvances(message: string)
    ensures Advance(message, Menu.Name()).nextStep == Menu
    ensures Advance("1", Menu.Name()).services.None?
  {
  }

  /** The evidently intended step function: the keywords are tried first in
      every step, and only an unmatched message in the menu or greeting step
      gets the menu again. */
  function AdvanceIntended(message: string, step: string): (r: Reply)
    ensures r.nextStep == SelectService <==> WantsBooking(message)
    ensures r.nextStep == FetchAppointments <==> !WantsBooking(message) && WantsReschedule(message)
    ensures r.nextStep == FetchCancelAppointments <==>
      !WantsBooking(message) && !WantsReschedule(message) && WantsCancel(message)
    ensures r.nextStep == Menu ==> r == (if IsMenuStep(step) then Welcome else Fallthrough)
    ensures r.services.Some? <==> r.nextStep == SelectService
    ensures r.services.Some? ==> r.services.value == Catalogue.Services
  {
    if Matches(message, "1", "book") then Reply(ServicePrompt, SelectService, Some(Catalogue.Services))
    else if Matches(message, "2", "reschedule") then Reply(RescheduleEmailPrompt, FetchAppointments, None)
    else if Matches(message, "3", "cancel") then Reply(CancelEmailPrompt, FetchCancelAppointments, None)
    else if IsMenuStep(step) then Welcome
    else Fallthrough
  }

  /** The intended function differs from the written one only in the menu
      and greeting steps, and there only for messages naming a choice. */
  lemma IntendedAgreesOutsideMenu(message: string, step: string)
    ensures !IsMenuStep(step) ==> AdvanceIntended(message, step) == Advance(message, step)
    ensures (IsMenuStep(step) && !WantsBooking(message) && !WantsReschedule(message) && !WantsCancel(message))
      ==> AdvanceIntended(message, step) == Advance(message, step)
  {
  }

  /** With the correction, each of the three digits typed in the menu step
      reaches its branch. */
  lemma IntendedMenuReachesEveryChoice()
    ensures AdvanceIntended("1", "menu").nextStep == SelectService
    ensures AdvanceIntended("2", "menu").nextStep == FetchAppointments
    ensures AdvanceIntended("3", "menu").nextStep == FetchCancelAppointments
  {
    assert !Text.Occurs("book", "2") && !Text.Occurs("book", "3") && !Text.Occurs("reschedule", "3") by {
      assert !Text.Includes("2", "book") && !Text.Includes("3", "book") && !Text.Includes("3", "reschedule");
    }
    assert Text.Lower("2") == "2" && Text.Lower("3") == "3";
  }
}
