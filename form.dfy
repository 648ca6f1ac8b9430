/** The form's state and its transitions, as values: one function per event handler
    of the component, the invariant the length-guarded edits keep, and what holds
    after any sequence of events the two screens offer. */
module FormModel {
  import opened Assembly

  const MAX_PHRASES: int := 20
  const MAX_LENGTH: int := 28
  const DEFAULT_COUNT: int := 5
  const COVER_COUNT: int := 2

  const COPIED_MESSAGE: string := "✅ 전체 복사 완료!"
  const FAILED_MESSAGE: string := "❌ 복사 실패."
  const NOTHING_MESSAGE: string := "복사할 문구가 없습니다."

  /** The six pieces of component state. */
  datatype Form = Form(
    count: int,
    phrases: seq<string>,
    anniversaryDate: string,
    coverPhrases: seq<string>,
    showInputs: bool,
    copySuccess: string)

  /** How the clipboard answered a write. */
  datatype ClipboardResult = Written | Rejected

  /** A field value the edit handlers accept. */
  predicate WithinLimit(value: string) {
    |value| <= MAX_LENGTH
  }

  /** Every stored text is within the length limit, there are two cover phrases and
      the phrase count is one the slider offers. */
  predicate Valid(s: Form) {
    1 <= s.count <= MAX_PHRASES
    && |s.coverPhrases| == COVER_COUNT
    && WithinLimit(s.anniversaryDate)
    && (forall j | 0 <= j < |s.coverPhrases| :: WithinLimit(s.coverPhrases[j]))
    && (forall i | 0 <= i < |s.phrases| :: WithinLimit(s.phrases[i]))
  }

  /** The screen a Form can be on: the setup screen holds no phrases; the input
      screen has exactly `count` of them. */
  predicate ScreenConsistent(s: Form) {
    (s.showInputs ==> |s.phrases| == s.count) && (!s.showInputs ==> s.phrases == [])
  }

  /** The state at mount time. */
  function Initial(): (s: Form)
    ensures Valid(s) && ScreenConsistent(s) && !s.showInputs
  {
    Form(DEFAULT_COUNT, [], "", ["", ""], false, "")
  }

  /** The range slider's `setCount`; the slider only offers 1 to MAX_PHRASES. */
  function SetCount(s: Form, n: int): (r: Form)
    requires 1 <= n <= MAX_PHRASES
    ensures r.count == n && r.(count := s.count) == s
    ensures Valid(s) ==> Valid(r)
  {
    s.(count := n)
  }

  /** `handleConfirm`: `count` empty phrase slots, and the input screen. */
  function HandleConfirm(s: Form): (r: Form)
    requires 0 <= s.count
    ensures |r.phrases| == s.count && forall i | 0 <= i < |r.phrases| :: r.phrases[i] == ""
    ensures r.showInputs
    ensures r.(phrases := s.phrases, showInputs := s.showInputs) == s
    ensures Valid(s) ==> Valid(r) && ScreenConsistent(r)
  {
    s.(phrases := seq(s.count, _ => ""), showInputs := true)
  }

  /** `handleReset`: every field back to its mount-time value, whatever it was. */
  function HandleReset(s: Form): (r: Form)
    ensures r.count == DEFAULT_COUNT && r.phrases == [] && r.anniversaryDate == ""
    ensures r.coverPhrases == ["", ""] && !r.showInputs && r.copySuccess == ""
  {
    Form(DEFAULT_COUNT, [], "", ["", ""], false, "")
  }

  /** `handlePhraseChange`: a value over the limit is dropped; otherwise only the
      addressed phrase becomes `value`. */
  function HandlePhraseChange(s: Form, index: nat, value: string): (r: Form)
    requires index < |s.phrases|
    ensures !WithinLimit(value) ==> r == s
    ensures WithinLimit(value) ==>
      |r.phrases| == |s.phrases| && r.phrases[index] == value
      && (forall i | 0 <= i < |s.phrases| && i != index :: r.phrases[i] == s.phrases[i])
      && r.(phrases := s.phrases) == s
    ensures Valid(s) ==> Valid(r)
  {
    if WithinLimit(value) then s.(phrases := s.phrases[index := value]) else s
  }

  /** `handleAnniversaryDateChange`: a value over the limit is dropped; otherwise
      only the date becomes `value`. */
  function HandleAnniversaryDateChange(s: Form, value: string): (r: Form)
    ensures !WithinLimit(value) ==> r == s
    ensures WithinLimit(value) ==> r.anniversaryDate == value && r.(anniversaryDate := s.anniversaryDate) == s
    ensures Valid(s) ==> Valid(r)
  {
    if WithinLimit(value) then s.(anniversaryDate := value) else s
  }

  /** `handleCoverPhraseChange`: a value over the limit is dropped; otherwise only
      the addressed cover phrase becomes `value`. */
  function HandleCoverPhraseChange(s: Form, index: nat, value: string): (r: Form)
    requires index < |s.coverPhrases|
    ensures !WithinLimit(value) ==> r == s
    ensures WithinLimit(value) ==>
      |r.coverPhrases| == |s.coverPhrases| && r.coverPhrases[index] == value
      && (forall j | 0 <= j < |s.coverPhrases| && j != index :: r.coverPhrases[j] == s.coverPhrases[j])
      && r.(coverPhrases := s.coverPhrases) == s
    ensures Valid(s) ==> Valid(r)
  {
    if WithinLimit(value) then s.(coverPhrases := s.coverPhrases[index := value]) else s
  }

  /** The status message after "copy all": nothing to copy, or the clipboard's
      answer to the write. */
  function CopyMessage(action: CopyAction, result: ClipboardResult): string {
    match action
    case NothingToCopy => NOTHING_MESSAGE
    case WriteClipboard(_) => if result == Written then COPIED_MESSAGE else FAILED_MESSAGE
  }

  /** `handleCopyAll`, with `result` standing for how the clipboard answers (it is
      not consulted when there is nothing to copy). */
  function HandleCopyAll(s: Form, result: ClipboardResult): (r: Form)
    ensures r.(copySuccess := s.copySuccess) == s
  {
    var action := CopyOutcome(Assemble(s.anniversaryDate, s.coverPhrases, s.phrases));
    s.(copySuccess := CopyMessage(action, result))
  }

  /** The timer callback scheduled by "copy all": it clears the message. */
  function MessageExpired(s: Form): (r: Form)
    ensures r.copySuccess == "" && r.(copySuccess := s.copySuccess) == s
  {
    s.(copySuccess := "")
  }

  /* ---------------- properties of single transitions ---------------- */

  /** Reset always lands on the mount-time state, so resetting twice is resetting once. */
  lemma ResetIsInitial(s: Form)
    ensures HandleReset(s) == Initial()
    ensures HandleReset(HandleReset(s)) == HandleReset(s)
  {
  }

  /** The message says "nothing to copy" exactly when every field trims to the empty
      string, and then the clipboard's answer does not matter; otherwise it reports
      the clipboard's answer. */
  lemma CopyAllMessage(s: Form, result: ClipboardResult)
    ensures var blank := IsBlank(s.anniversaryDate)
        && (forall j | 0 <= j < |s.coverPhrases| :: IsBlank(s.coverPhrases[j]))
        && (forall k | 0 <= k < |s.phrases| :: IsBlank(s.phrases[k]));
      var message := HandleCopyAll(s, result).copySuccess;
      (blank ==> message == NOTHING_MESSAGE)
      && (!blank && result == Written ==> message == COPIED_MESSAGE)
      && (!blank && result == Rejected ==> message == FAILED_MESSAGE)
  {
    AssembleEmpty(s.anniversaryDate, s.coverPhrases, s.phrases);
  }

  /* ---------------- sequences of events ---------------- */

  /** What the user can do: the slider and the confirm button on the setup screen;
      the three kinds of field edit, reset and copy on the input screen; and the
      message timer may fire at any time. */
  datatype Event =
    | SlideCount(n: int)
    | Confirm
    | Reset
    | EditPhrase(index: nat, value: string)
    | EditDate(value: string)
    | EditCover(index: nat, value: string)
    | CopyAll(result: ClipboardResult)
    | Expire

  /** Whether the screen on show offers `e`, and its arguments are ones the
      rendered controls can produce. */
  predicate Enabled(s: Form, e: Event) {
    match e
    case SlideCount(n) => !s.showInputs && 1 <= n <= MAX_PHRASES
    case Confirm => !s.showInputs && 0 <= s.count
    case Reset => s.showInputs
    case EditPhrase(i, _) => s.showInputs && i < |s.phrases|
    case EditDate(_) => s.showInputs
    case EditCover(i, _) => s.showInputs && i < |s.coverPhrases|
    case CopyAll(_) => s.showInputs
    case Expire => true
  }

  function Step(s: Form, e: Event): Form
    requires Enabled(s, e)
  {
    match e
    case SlideCount(n) => SetCount(s, n)
    case Confirm => HandleConfirm(s)
    case Reset => HandleReset(s)
    case EditPhrase(i, v) => HandlePhraseChange(s, i, v)
    case EditDate(v) => HandleAnniversaryDateChange(s, v)
    case EditCover(i, v) => HandleCoverPhraseChange(s, i, v)
    case CopyAll(result) => HandleCopyAll(s, result)
    case Expire => MessageExpired(s)
  }

  /** Every event of `events` is enabled when it comes. */
  predicate Feasible(s: Form, events: seq<Event>)
    decreases |events|
  {
    events == [] || (Enabled(s, events[0]) && Feasible(Step(s, events[0]), events[1..]))
  }

  function Run(s: Form, events: seq<Event>): Form
    requires Feasible(s, events)
    decreases |events|
  {
    if events == [] then s else Run(Step(s, events[0]), events[1..])
  }

  /** Each enabled event keeps the length limits, the two cover phrases, the count
      range and the screen's phrase slots. */
  lemma StepPreserves(s: Form, e: Event)
    requires Valid(s) && ScreenConsistent(s) && Enabled(s, e)
    ensures Valid(Step(s, e)) && ScreenConsistent(Step(s, e))
  {
  }

  /** From the mount-time state, after any sequence of events the screens offer,
      no stored text exceeds MAX_LENGTH, there are two cover phrases, the count
      is in range, and the input screen has exactly `count` phrase slots. */
  lemma {:induction false} RunPreserves(s: Form, events: seq<Event>)
    requires Valid(s) && ScreenConsistent(s) && Feasible(s, events)
    ensures Valid(Run(s, events)) && ScreenConsistent(Run(s, events))
    decreases |events|
  {
    if events != [] {
      StepPreserves(s, events[0]);
      RunPreserves(Step(s, events[0]), events[1..]);
    }
  }

  lemma ReachableValid(events: seq<Event>)
    requires Feasible(Initial(), events)
    ensures Valid(Run(Initial(), events)) && ScreenConsistent(Run(Initial(), events))
  {
    RunPreserves(Initial(), events);
  }
}
