/** EmailSendLog: the per-message ledger of the addresses a message has
    already been sent to and of the error text its sends have produced.
    It only ever grows: addresses are inserted, error text is appended. */
module SendLedger {
  import opened Common

  class EmailSendLog {
    /** emailSentTo: the address strings recorded as delivered. */
    var sentTo: set<string>
    /** errors: the StringBuilder of accumulated error text. */
    var errors: string

    constructor ()
      ensures sentTo == {} && errors == ""
    {
      sentTo := {};
      errors := "";
    }

    /** Records one address as delivered; every other address keeps its membership. */
    method LogSentTo(address: string)
      modifies this
      ensures sentTo == old(sentTo) + {address}
      ensures address in sentTo
      ensures forall other :: other != address ==> (other in sentTo <==> other in old(sentTo))
      ensures errors == old(errors)
    {
      sentTo := sentTo + {address};
    }

    /** Membership test; changes nothing. */
    method AlreadySentTo(address: string) returns (sent: bool)
      ensures sent <==> address in sentTo
    {
      sent := address in sentTo;
    }

    /** Appends raw error text; the old text stays a prefix. */
    method LogError(error: string)
      modifies this
      ensures errors == old(errors) + error
      ensures old(errors) <= errors
      ensures sentTo == old(sentTo)
    {
      errors := errors + error;
    }

    /** Appends the description of a caught exception. */
    method LogException(e: JavaException)
      modifies this
      ensures errors == old(errors) + "[ERROR]:" + ExceptionText(e) + " [MSG]:" + Text(e.message)
      ensures errors == old(errors) + ExceptionEntry(e)
      ensures sentTo == old(sentTo)
    {
      errors := errors + ExceptionEntry(e);
    }

    /** A snapshot of the error text; changes nothing. */
    method GetErrors() returns (text: string)
      ensures text == errors
    {
      text := errors;
    }
  }

  /** The text logError(Exception) appends: "[ERROR]:" + e + " [MSG]:" + e.getMessage(). */
  function ExceptionEntry(e: JavaException): string
  {
    "[ERROR]:" + ExceptionText(e) + " [MSG]:" + Text(e.message)
  }
}
