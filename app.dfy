/** The `App` component as an object: its six state fields, updated in place by the
    event handlers. Each handler leaves the object in the state that the matching
    transition of FormModel gives for the state it started from. */
module AppComponent {
  import opened Assembly
  import opened FormModel

  class App {
    var count: int
    var phrases: seq<string>
    var anniversaryDate: string
    var coverPhrases: seq<string>
    var showInputs: bool
    var copySuccess: string

    /** The fields as one value. */
    function State(): Form
      reads this
    {
      Form(count, phrases, anniversaryDate, coverPhrases, showInputs, copySuccess)
    }

    /** Every stored text within the length limit, two cover phrases, the count in
        the slider's range, and the screen on show matching the phrase slots. */
    predicate Valid()
      reads this
    {
      FormModel.Valid(State()) && ScreenConsistent(State())
    }

    /** The `useState` initial values. */
    constructor ()
      ensures State() == Initial() && Valid()
    {
      count := DEFAULT_COUNT;
      phrases := [];
      anniversaryDate := "";
      coverPhrases := ["", ""];
      showInputs := false;
      copySuccess := "";
    }

    /** The slider's `setCount`. The slider is only on the setup screen, where a new
        count keeps the screen consistent. */
    method SetCount(n: int)
      requires 1 <= n <= MAX_PHRASES
      modifies this
      ensures count == n
      ensures phrases == old(phrases) && anniversaryDate == old(anniversaryDate)
      ensures coverPhrases == old(coverPhrases) && showInputs == old(showInputs)
      ensures copySuccess == old(copySuccess)
      ensures State() == FormModel.SetCount(old(State()), n)
      ensures old(FormModel.Valid(State())) ==> FormModel.Valid(State())
      ensures old(Valid()) && !showInputs ==> Valid()
    {
      count := n;
    }

    method HandleConfirm()
      requires 0 <= count
      modifies this
      ensures |phrases| == old(count) && forall i | 0 <= i < |phrases| :: phrases[i] == ""
      ensures showInputs
      ensures count == old(count) && anniversaryDate == old(anniversaryDate)
      ensures coverPhrases == old(coverPhrases) && copySuccess == old(copySuccess)
      ensures State() == FormModel.HandleConfirm(old(State()))
      ensures old(Valid()) ==> Valid()
    {
      phrases := seq(count, _ => "");
      showInputs := true;
    }

    method HandleReset()
      modifies this
      ensures count == DEFAULT_COUNT && phrases == [] && anniversaryDate == ""
      ensures coverPhrases == ["", ""] && !showInputs && copySuccess == ""
      ensures State() == FormModel.HandleReset(old(State())) == Initial()
      ensures Valid()
    {
      count := DEFAULT_COUNT;
      phrases := [];
      anniversaryDate := "";
      coverPhrases := ["", ""];
      showInputs := false;
      copySuccess := "";
    }

    method HandlePhraseChange(index: nat, value: string)
      requires index < |phrases|
      modifies this
      ensures phrases == if |value| <= MAX_LENGTH then old(phrases)[index := value] else old(phrases)
      ensures count == old(count) && anniversaryDate == old(anniversaryDate)
      ensures coverPhrases == old(coverPhrases) && showInputs == old(showInputs)
      ensures copySuccess == old(copySuccess)
      ensures State() == FormModel.HandlePhraseChange(old(State()), index, value)
      ensures old(Valid()) ==> Valid()
    {
      if |value| <= MAX_LENGTH {
        var newPhrases := phrases;
        newPhrases := newPhrases[index := value];
        phrases := newPhrases;
      }
    }

    method HandleAnniversaryDateChange(value: string)
      modifies this
      ensures anniversaryDate == if |value| <= MAX_LENGTH then value else old(anniversaryDate)
      ensures count == old(count) && phrases == old(phrases)
      ensures coverPhrases == old(coverPhrases) && showInputs == old(showInputs)
      ensures copySuccess == old(copySuccess)
      ensures State() == FormModel.HandleAnniversaryDateChange(old(State()), value)
      ensures old(Valid()) ==> Valid()
    {
      if |value| <= MAX_LENGTH {
        anniversaryDate := value;
      }
    }

    method HandleCoverPhraseChange(index: nat, value: string)
      requires index < |coverPhrases|
      modifies this
      ensures coverPhrases == if |value| <= MAX_LENGTH then old(coverPhrases)[index := value] else old(coverPhrases)
      ensures count == old(count) && phrases == old(phrases) && anniversaryDate == old(anniversaryDate)
      ensures showInputs == old(showInputs) && copySuccess == old(copySuccess)
      ensures State() == FormModel.HandleCoverPhraseChange(old(State()), index, value)
      ensures old(Valid()) ==> Valid()
    {
      if |value| <= MAX_LENGTH {
        var newCoverPhrases := coverPhrases;
        newCoverPhrases := newCoverPhrases[index := value];
        coverPhrases := newCoverPhrases;
      }
    }

    /** `handleCopyAll`. The returned action is what the clipboard is asked to do;
        `result` is the clipboard's answer, which is not consulted when there is
        nothing to copy. */
    method HandleCopyAll(result: ClipboardResult) returns (action: CopyAction)
      modifies this
      ensures action == CopyOutcome(Assemble(anniversaryDate, coverPhrases, phrases))
      ensures copySuccess == CopyMessage(action, result)
      ensures count == old(count) && phrases == old(phrases) && anniversaryDate == old(anniversaryDate)
      ensures coverPhrases == old(coverPhrases) && showInputs == old(showInputs)
      ensures State() == FormModel.HandleCopyAll(old(State()), result)
      ensures old(Valid()) ==> Valid()
    {
      var textToCopy := Assemble(anniversaryDate, coverPhrases, phrases);
      if textToCopy != [] {
        action := WriteClipboard(textToCopy);
        copySuccess := if result == Written then COPIED_MESSAGE else FAILED_MESSAGE;
      } else {
        action := NothingToCopy;
        copySuccess := NOTHING_MESSAGE;
      }
    }

    /** The callback of the two-second timer. */
    method MessageExpired()
      modifies this
      ensures copySuccess == ""
      ensures count == old(count) && phrases == old(phrases) && anniversaryDate == old(anniversaryDate)
      ensures coverPhrases == old(coverPhrases) && showInputs == old(showInputs)
      ensures State() == FormModel.MessageExpired(old(State()))
      ensures old(Valid()) ==> Valid()
    {
      copySuccess := "";
    }
  }
}
