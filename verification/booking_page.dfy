/**
 * The customer booking page's logic: the e-mail check, the state the page keeps between its
 * steps, and the checks `handleConfirmBooking` makes before it posts a booking.
 */
module BookingPage {
  import opened Wrappers
  import opened Text
  import opened Calendar
  import opened Grouping

  // ---------------------------------------------------------------------------------------
  // isValidEmail
  // ---------------------------------------------------------------------------------------

  /** A piece the pattern's `[^\s@]+` accepts (emptiness aside): no white space and no '@'. */
  predicate Plain(s: string) {
    forall k :: 0 <= k < |s| ==> !IsSpace(s[k]) && s[k] != '@'
  }

  predicate NoSpace(s: string) {
    forall k :: 0 <= k < |s| ==> !IsSpace(s[k])
  }

  /**
   * The language of `/^[^\s@]+@[^\s@]+\.[^\s@]+$/`: a non-empty plain piece, '@', a non-empty
   * plain piece, '.', a non-empty plain piece.
   */
  ghost predicate EmailPattern(email: string) {
    exists i, j :: 0 < i && i + 1 < j < |email| - 1 && email[i] == '@' && email[j] == '.'
      && Plain(email[..i]) && Plain(email[i + 1..j]) && Plain(email[j + 1..])
  }

  /** The first index of `c` in `s`, or `|s|` when there is none. */
  function Find(s: string, c: char): (i: nat)
    ensures i <= |s| && (i < |s| ==> s[i] == c)
    ensures forall k :: 0 <= k < i ==> s[k] != c
  {
    if s == [] then 0
    else if s[0] == c then 0
    else 1 + Find(s[1..], c)
  }

  /**
   * `isValidEmail`, decided in one pass: the first '@' has a plain piece before it, the text
   * after it is plain, and a '.' sits there with text on both sides.
   */
  function IsValidEmail(email: string): bool {
    var i := Find(email, '@');
    0 < i < |email| && NoSpace(email[..i]) && Plain(email[i + 1..])
    && exists j | i + 1 < j < |email| - 1 :: email[j] == '.'
  }

  /** The decision agrees with the pattern on every text. */
  lemma IsValidEmailMatchesPattern(email: string)
    ensures IsValidEmail(email) <==> EmailPattern(email)
  {
    if IsValidEmail(email) {
      AcceptedMatches(email);
    }
    if EmailPattern(email) {
      MatchAccepted(email);
    }
  }

  lemma AcceptedMatches(email: string)
    requires IsValidEmail(email)
    ensures EmailPattern(email)
  {
    var i := Find(email, '@');
    var j :| i + 1 < j < |email| - 1 && email[j] == '.';
    var after := email[i + 1..];
    assert email[i + 1..j] == after[..j - i - 1];
    assert email[j + 1..] == after[j - i..];
    assert Plain(email[..i]);
    assert Plain(email[i + 1..j]);
    assert Plain(email[j + 1..]);
  }

  lemma MatchAccepted(email: string)
    requires EmailPattern(email)
    ensures IsValidEmail(email)
  {
    var i, j :| 0 < i && i + 1 < j < |email| - 1 && email[i] == '@' && email[j] == '.'
      && Plain(email[..i]) && Plain(email[i + 1..j]) && Plain(email[j + 1..]);
    FindFirst(email, '@', i);
    PlainAround(email, i + 1, j);
  }

  /** The first index holding `c` is what `Find` returns. */
  lemma FindFirst(s: string, c: char, i: int)
    requires 0 <= i < |s| && s[i] == c && forall k :: 0 <= k < i ==> s[..i][k] != c
    ensures Find(s, c) == i
  {
    assert forall k :: 0 <= k < i ==> s[k] == s[..i][k];
  }

  /** Plain text on both sides of a plain character `email[j]` makes the text from `i` on plain. */
  lemma PlainAround(email: string, i: int, j: int)
    requires 0 <= i <= j < |email| && !IsSpace(email[j]) && email[j] != '@'
    requires Plain(email[i..j]) && Plain(email[j + 1..])
    ensures Plain(email[i..])
  {
    forall k | 0 <= k < |email| - i
      ensures !IsSpace(email[i..][k]) && email[i..][k] != '@'
    {
      if i + k < j {
        assert email[i..][k] == email[i..j][k];
      } else if i + k > j {
        assert email[i..][k] == email[j + 1..][i + k - j - 1];
      }
    }
  }

  /**
   * In plain words: an accepted address has no white space, exactly one '@' with text before
   * it, and after it a '.' with text on both sides.
   */
  lemma ValidEmailShape(email: string)
    requires IsValidEmail(email)
    ensures NoSpace(email)
    ensures var i := Find(email, '@');
      0 < i < |email| && forall k :: 0 <= k < |email| && k != i ==> email[k] != '@'
  {
    var i := Find(email, '@');
    assert 0 < i < |email| && NoSpace(email[..i]) && Plain(email[i + 1..]);
    AroundAt(email, i);
  }

  /** A blank-free text before the first '@' and a plain text after it make one '@' and no blank. */
  lemma AroundAt(email: string, i: int)
    requires 0 <= i < |email| && email[i] == '@' && forall k :: 0 <= k < i ==> email[k] != '@'
    requires NoSpace(email[..i]) && Plain(email[i + 1..])
    ensures NoSpace(email)
    ensures forall k :: 0 <= k < |email| && k != i ==> email[k] != '@'
  {
    forall k | 0 <= k < |email|
      ensures !IsSpace(email[k]) && (k != i ==> email[k] != '@')
    {
      if k < i {
        assert email[k] == email[..i][k];
      } else if k > i {
        assert email[k] == email[i + 1..][k - i - 1];
      }
    }
  }

  // ---------------------------------------------------------------------------------------
  // The page state and handleConfirmBooking
  // ---------------------------------------------------------------------------------------

  /** What pressing "Confirm Booking" does: one of four messages, or the booking request. */
  datatype Confirm =
    | NoSlot                 // "Please select a time slot"
    | NoEmail                // "Please enter your email address"
    | BadEmail               // "Please enter a valid email address"
    | NoOrder                // no validated order: reading its number throws, and the error is shown
    | Submit(orderNumber: string, slot: Instant, email: string)

  /** The part of the page's `state` these steps use; the order is kept by its number. */
  class BookingState {
    var currentOrder: Option<string>
    var selectedSlot: Option<Instant>
    var availableSlots: seq<Instant>
    var availableSlotsByDate: map<string, seq<Instant>>

    constructor ()
      ensures currentOrder.None? && selectedSlot.None?
      ensures availableSlots == [] && availableSlotsByDate == map[]
    {
      currentOrder := None;
      selectedSlot := None;
      availableSlots := [];
      availableSlotsByDate := map[];
    }

    /** `handleValidateOrder` on success: the order becomes the current one. */
    method OrderValidated(orderNumber: string)
      modifies this
      ensures currentOrder == Some(orderNumber)
      ensures selectedSlot == old(selectedSlot) && availableSlots == old(availableSlots)
      ensures availableSlotsByDate == old(availableSlotsByDate)
    {
      currentOrder := Some(orderNumber);
    }

    /**
     * `showSlotSelectionStep` once the slots arrive: keep them, and group them by day unless
     * there are none (the page then only shows a message).
     */
    method ShowSlots(slots: seq<Instant>)
      modifies this
      ensures availableSlots == slots
      ensures currentOrder == old(currentOrder) && selectedSlot == old(selectedSlot)
      ensures slots == [] ==> availableSlotsByDate == old(availableSlotsByDate)
      ensures slots != [] ==> availableSlotsByDate == Grouped(SlotEntries(slots))
    {
      availableSlots := slots;
      if |slots| == 0 {
        return;
      }
      availableSlotsByDate := GroupSlotsByDate(slots);
    }

    /**
     * `selectTimeSlot`: the selection changes only when a button for the slot is on the page,
     * that is for one of the offered slots.
     */
    method SelectTimeSlot(slot: Instant)
      modifies this
      ensures slot in availableSlots ==> selectedSlot == Some(slot)
      ensures slot !in availableSlots ==> selectedSlot == old(selectedSlot)
      ensures currentOrder == old(currentOrder) && availableSlots == old(availableSlots)
      ensures availableSlotsByDate == old(availableSlotsByDate)
    {
      if slot in availableSlots {
        selectedSlot := Some(slot);
      }
    }

    /**
     * `handleConfirmBooking`'s checks, in order: a slot is selected; the trimmed e-mail input
     * (empty when the field is absent) is non-empty; it is a valid address; then the request
     * carries the current order's number, the slot and the trimmed address.
     */
    method ConfirmBooking(emailInput: Option<string>) returns (outcome: Confirm)
      ensures selectedSlot.None? ==> outcome == NoSlot
      ensures outcome == NoEmail <==> selectedSlot.Some? && Trim(emailInput.GetOr("")) == ""
      ensures outcome == BadEmail <==>
        selectedSlot.Some? && Trim(emailInput.GetOr("")) != "" && !IsValidEmail(Trim(emailInput.GetOr("")))
      ensures outcome == NoOrder <==>
        selectedSlot.Some? && IsValidEmail(Trim(emailInput.GetOr(""))) && currentOrder.None?
      ensures outcome.Submit? <==>
        selectedSlot.Some? && currentOrder.Some? && IsValidEmail(Trim(emailInput.GetOr("")))
      ensures outcome.Submit? ==>
        outcome == Submit(currentOrder.value, selectedSlot.value, Trim(emailInput.GetOr("")))
    {
      if selectedSlot.None? {
        return NoSlot;
      }
      var customerEmail := if emailInput.Some? then Trim(emailInput.value) else "";
      if customerEmail == "" {
        return NoEmail;
      }
      if !IsValidEmail(customerEmail) {
        return BadEmail;
      }
      if currentOrder.None? {
        return NoOrder;
      }
      outcome := Submit(currentOrder.value, selectedSlot.value, customerEmail);
    }

    /** `handleBackToValidation`: forget the order, the selection and the slots. */
    method BackToValidation()
      modifies this
      ensures currentOrder.None? && selectedSlot.None?
      ensures availableSlots == [] && availableSlotsByDate == map[]
    {
      currentOrder := None;
      selectedSlot := None;
      availableSlots := [];
      availableSlotsByDate := map[];
    }
  }

  /**
   * A submitted address is never empty and carries no surrounding white space, so the
   * servers' "email is required" check passes and the address reaches the confirmation mail
   * unchanged.
   */
  lemma SubmittedEmailIsPresent(email: string)
    requires IsValidEmail(email)
    ensures email != "" && NoSpace(email)
    ensures Trim(email) == email
  {
    ValidEmailShape(email);
    TrimOfTrimmed(email);
  }
}
