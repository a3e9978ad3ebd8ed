/**
 * src/ui.rs: the filename validator, the selection prompts reduced to the
 * choice the user makes, and the loop that keeps a secret on the clipboard
 * for ten seconds.
 *
 * The terminal prompts, `crossterm`'s `poll`/`read`, the system clipboard
 * and the clock are replaced by their answers, given as parameters.
 */
module Ui {
  import opened Results
  import opened Errors
  import opened GpgHelpers

  // ---------------------------------------------------------------------
  // FilenameValidator
  // ---------------------------------------------------------------------

  const SLASH_MESSAGE := "Filename cannot contain slashes."
  const CHARSET_MESSAGE := "Filename can only contain alphanumeric characters, spaces, underscores and dashes."

  /** `inquire`'s `Validation`. */
  datatype Validation = Valid | Invalid(message: string)

  /** The class `[a-zA-Z0-9_\- ]`. */
  predicate IsNameChar(c: char) {
    ('a' <= c <= 'z') || ('A' <= c <= 'Z') || ('0' <= c <= '9') || c == '_' || c == '-' || c == ' '
  }

  /** Whether the whole input matches `^[a-zA-Z0-9_\- ]+$`: a name character, then either the end or another match. */
  predicate MatchesNamePattern(s: string)
    decreases |s|
  {
    |s| > 0 && IsNameChar(s[0]) && (|s| == 1 || MatchesNamePattern(s[1..]))
  }

  /** The pattern accepts exactly the non-empty strings of name characters. */
  lemma {:induction false} MatchesNamePatternExactly(s: string)
    ensures MatchesNamePattern(s) <==> |s| > 0 && forall i :: 0 <= i < |s| ==> IsNameChar(s[i])
    decreases |s|
  {
    if |s| > 1 {
      MatchesNamePatternExactly(s[1..]);
      assert forall i :: 1 <= i < |s| ==> s[i] == s[1..][i - 1];
    }
  }

  /** `FilenameValidator::validate`: the slash test first, then the pattern. */
  function Validate(input: string): Validation {
    if '/' in input then Invalid(SLASH_MESSAGE)
    else if !MatchesNamePattern(input) then Invalid(CHARSET_MESSAGE)
    else Valid
  }

  /** An input is accepted exactly when it is non-empty and made of letters, digits, '_', '-' and ' '. */
  lemma ValidateAccepts(input: string)
    ensures Validate(input) == Valid <==> |input| > 0 && forall i :: 0 <= i < |input| ==> IsNameChar(input[i])
  {
    MatchesNamePatternExactly(input);
    if '/' in input {
      var i :| 0 <= i < |input| && input[i] == '/';
      assert !IsNameChar(input[i]);
    }
  }

  /** A rejected input gets the slash message exactly when it contains '/', the charset message otherwise. */
  lemma ValidateMessages(input: string)
    ensures Validate(input).Invalid? ==> (Validate(input).message == SLASH_MESSAGE <==> '/' in input)
    ensures Validate(input).Invalid? ==> (Validate(input).message == CHARSET_MESSAGE <==> '/' !in input)
    ensures '/' in input ==> Validate(input) == Invalid(SLASH_MESSAGE)
    ensures Validate("") == Invalid(CHARSET_MESSAGE)
  {
    assert |SLASH_MESSAGE| != |CHARSET_MESSAGE|;
  }

  /** An accepted name has no '/', '\\' or '.', so it is neither absolute nor able to climb out with "..". */
  lemma ValidNameIsPlain(input: string)
    requires Validate(input) == Valid
    ensures '/' !in input && '\\' !in input && '.' !in input
  {
    ValidateAccepts(input);
    forall c | c in input
      ensures c != '/' && c != '\\' && c != '.'
    {
      var i :| 0 <= i < |input| && input[i] == c;
      assert IsNameChar(input[i]);
    }
  }

  // ---------------------------------------------------------------------
  // Prompts
  // ---------------------------------------------------------------------

  /**
   * `prompt_for_filename`: `inquire` asks again after every rejected entry;
   * `typed` is what the user submits, in order, before giving up.
   */
  function PromptForFilename(typed: seq<string>): (r: Result<string, VaultError>)
    ensures r.Ok? ==> Validate(r.value) == Valid && r.value in typed
    ensures r.Err? ==> r.error == InputError(Canceled)
    decreases |typed|
  {
    if |typed| == 0 then Err(InputError(Canceled))
    else if Validate(typed[0]) == Valid then Ok(typed[0])
    else PromptForFilename(typed[1..])
  }

  /** The first accepted entry is the answer; entries before it were all rejected. */
  lemma {:induction false} PromptForFilenameFirst(typed: seq<string>, i: nat)
    requires i < |typed| && Validate(typed[i]) == Valid
    requires forall j :: 0 <= j < i ==> Validate(typed[j]) != Valid
    ensures PromptForFilename(typed) == Ok(typed[i])
    decreases i
  {
    if i > 0 {
      assert forall j :: 0 <= j < i - 1 ==> typed[1..][j] == typed[j + 1];
      PromptForFilenameFirst(typed[1..], i - 1);
    }
  }

  /** What the user does with a `Select` prompt: picks the option at an index, or cancels. */
  datatype Selection = Chose(index: nat) | Cancelled

  /** A selection the prompt can produce for `count` options. */
  predicate SelectionFits(choice: Selection, count: nat) {
    choice.Chose? ==> choice.index < count
  }

  /** `pick_password`: `Select` refuses an empty list of options with `InvalidConfiguration`, here `EmptyOptions`. */
  function PickPassword(options: seq<string>, choice: Selection): (r: Result<string, VaultError>)
    requires |options| > 0 ==> SelectionFits(choice, |options|)
    ensures |options| == 0 ==> r == Err(InputError(EmptyOptions))
    ensures r.Ok? <==> |options| > 0 && choice.Chose?
    ensures r.Ok? ==> r.value == options[choice.index]
    ensures |options| > 0 && choice.Cancelled? ==> r == Err(InputError(Canceled))
  {
    if |options| == 0 then Err(InputError(EmptyOptions))
    else match choice
      case Cancelled => Err(InputError(Canceled))
      case Chose(i) => Ok(options[i])
  }

  /** `pick_key`: the user picks one of the displayed keys and gets back its id; no keys is `EmptyOptions`, as in `pick_password`. */
  function PickKey(keys: seq<KeyIdName>, choice: Selection): (r: Result<string, VaultError>)
    requires |keys| > 0 ==> SelectionFits(choice, |keys|)
    ensures |keys| == 0 ==> r == Err(InputError(EmptyOptions))
    ensures r.Ok? <==> |keys| > 0 && choice.Chose?
    ensures r.Ok? ==> r.value == keys[choice.index].id
    ensures |keys| > 0 && choice.Cancelled? ==> r == Err(InputError(Canceled))
  {
    if |keys| == 0 then Err(InputError(EmptyOptions))
    else match choice
      case Cancelled => Err(InputError(Canceled))
      case Chose(i) => Ok(keys[i].id)
  }

  /**
   * `maybe_prompt_for_password`: asks for the passphrase only when the vault
   * is configured to; a failed prompt aborts with "Failed to read password.".
   */
  function MaybePromptForPassword(askPassword: bool, answer: Result<string, VaultError>): (o: Outcome<Option<string>>)
    ensures !askPassword ==> o == Returned(None)
    ensures askPassword && answer.Ok? ==> o == Returned(Some(answer.value))
    ensures askPassword && answer.Err? ==> o == Panicked("Failed to read password.")
  {
    if askPassword then
      match Expect(answer, "Failed to read password.")
      case Returned(p) => Returned(Some(p))
      case Panicked(m) => Panicked(m)
    else Returned(None)
  }

  // ---------------------------------------------------------------------
  // copy_to_clipboard_and_wait
  // ---------------------------------------------------------------------

  /** How long the secret stays on the clipboard, in milliseconds. */
  const EXPOSURE_MS: nat := 10000

  /** What `crossterm::event::read` returns. */
  datatype Event = KeyEvent | OtherEvent

  /** What `crossterm::event::poll(remaining)` returns: an event is ready to be read, the time ran out, or an error. */
  datatype Poll = Ready(read: Result<Event, IoError>) | TimedOut | PollError(error: IoError)

  /** Why the waiting loop stopped. */
  datatype WaitExit = Expired | KeyPressed | PollTimedOut | PollFailed | ReadFailed

  /**
   * The milliseconds elapsed since `set_text`, as the loop reads them at each
   * iteration: the reading for iteration k is `elapsed(k)`, and every reading
   * is later than the previous one.
   */
  ghost predicate StrictlyIncreasing(elapsed: nat -> nat) {
    forall k: nat :: elapsed(k) < elapsed(k + 1)
  }

  /** Iteration k goes round again: time is left and the event read is not a key. */
  predicate Continues(elapsed: nat -> nat, polls: nat -> Poll, k: nat) {
    elapsed(k) < EXPOSURE_MS && polls(k) == Ready(Ok(OtherEvent))
  }

  /** What ends the loop at iteration k when it does not go round again. */
  function ExitAt(elapsed: nat -> nat, polls: nat -> Poll, k: nat): WaitExit {
    if elapsed(k) >= EXPOSURE_MS then Expired
    else match polls(k)
      // A ready event that is not a key makes the iteration continue, so here it is a key.
      case Ready(Ok(_)) => KeyPressed
      case Ready(Err(_)) => ReadFailed
      case TimedOut => PollTimedOut
      case PollError(_) => PollFailed
  }

  /**
   * The iteration, counted from `k`, at which the loop stops, and why: the
   * first iteration that does not go round again.
   */
  function WaitEnd(elapsed: nat -> nat, polls: nat -> Poll, k: nat): (r: (nat, WaitExit))
    requires StrictlyIncreasing(elapsed)
    ensures r.0 >= k && !Continues(elapsed, polls, r.0)
    ensures forall j :: k <= j < r.0 ==> Continues(elapsed, polls, j)
    ensures r.1 == ExitAt(elapsed, polls, r.0)
    decreases EXPOSURE_MS - elapsed(k)
  {
    if Continues(elapsed, polls, k) then WaitEnd(elapsed, polls, k + 1)
    else (k, ExitAt(elapsed, polls, k))
  }

  /** The loop stops at the first iteration that does not go round again, whatever comes later. */
  lemma {:induction false} WaitEndIsFirstStop(elapsed: nat -> nat, polls: nat -> Poll, k: nat, n: nat)
    requires StrictlyIncreasing(elapsed)
    requires k <= n
    requires forall j :: k <= j < n ==> Continues(elapsed, polls, j)
    requires !Continues(elapsed, polls, n)
    ensures WaitEnd(elapsed, polls, k) == (n, ExitAt(elapsed, polls, n))
    decreases n - k
  {
    if k < n {
      assert Continues(elapsed, polls, k);
      WaitEndIsFirstStop(elapsed, polls, k + 1, n);
    }
  }

  /** A reading at iteration k is at least k milliseconds after the first one. */
  lemma {:induction false} ElapsedGrows(elapsed: nat -> nat, k: nat)
    requires StrictlyIncreasing(elapsed)
    ensures elapsed(k) >= elapsed(0) + k
    decreases k
  {
    if k > 0 {
      ElapsedGrows(elapsed, k - 1);
      assert elapsed(k - 1) < elapsed(k);
    }
  }

  /** The loop runs at most ten thousand times and stops on expiry exactly when the time is up. */
  lemma WaitEndBounded(elapsed: nat -> nat, polls: nat -> Poll)
    requires StrictlyIncreasing(elapsed)
    ensures WaitEnd(elapsed, polls, 0).0 <= EXPOSURE_MS
    ensures WaitEnd(elapsed, polls, 0).1 == Expired <==> elapsed(WaitEnd(elapsed, polls, 0).0) >= EXPOSURE_MS
  {
    ElapsedGrows(elapsed, EXPOSURE_MS);
    assert !Continues(elapsed, polls, EXPOSURE_MS);
  }

  /** The system clipboard: what it holds, and how many times the program asked to clear it. */
  class SystemClipboard {
    var contents: Option<string>
    var clearCalls: nat

    constructor (initial: Option<string>)
      ensures contents == initial && clearCalls == 0
    {
      contents := initial;
      clearCalls := 0;
    }

    /** `Clipboard::set_text`; `ok` is whether the platform accepts the text. */
    method SetText(text: string, ok: bool) returns (r: Result<(), string>)
      modifies this
      ensures r.Ok? <==> ok
      ensures contents == if ok then Some(text) else old(contents)
      ensures clearCalls == old(clearCalls)
    {
      if ok {
        contents := Some(text);
        r := Ok(());
      } else {
        r := Err("set_text failed");
      }
    }

    /** `Clipboard::clear`; `ok` is whether the platform clears it. */
    method Clear(ok: bool) returns (r: Result<(), string>)
      modifies this
      ensures r.Ok? <==> ok
      ensures contents == if ok then None else old(contents)
      ensures clearCalls == old(clearCalls) + 1
    {
      clearCalls := clearCalls + 1;
      if ok {
        contents := None;
        r := Ok(());
      } else {
        r := Err("clear failed");
      }
    }
  }

  /**
   * The waiting loop of `copy_to_clipboard_and_wait`: `elapsed` gives the
   * clock readings and `polls` what each `poll` call reports. `waits` are
   * the timeouts the loop passes to `poll`, in order, and `exit` is why it
   * stopped; `ReadFailed` is the `read().unwrap()` that panics.
   */
  method WaitForKeyOrExpiry(elapsed: nat -> nat, polls: nat -> Poll) returns (exit: WaitExit, waits: seq<nat>)
    requires StrictlyIncreasing(elapsed)
    ensures exit == WaitEnd(elapsed, polls, 0).1
    ensures |waits| == (if exit == Expired then WaitEnd(elapsed, polls, 0).0 else WaitEnd(elapsed, polls, 0).0 + 1)
    ensures forall j :: 0 <= j < |waits| ==> waits[j] == EXPOSURE_MS - elapsed(j) > 0
  {
    waits := [];
    var k: nat := 0;
    while true
      invariant WaitEnd(elapsed, polls, k) == WaitEnd(elapsed, polls, 0)
      invariant |waits| == k && forall j :: 0 <= j < k ==> waits[j] == EXPOSURE_MS - elapsed(j) > 0
      decreases EXPOSURE_MS - elapsed(k)
    {
      var now := elapsed(k);
      if now >= EXPOSURE_MS {
        return Expired, waits;
      }
      var remaining := EXPOSURE_MS - now;
      waits := waits + [remaining];
      match polls(k) {
        case Ready(read) =>
          if read.Err? {
            return ReadFailed, waits;
          }
          if read.value == KeyEvent {
            return KeyPressed, waits;
          }
        case TimedOut =>
          return PollTimedOut, waits;
        case PollError(_) =>
          return PollFailed, waits;
      }
      k := k + 1;
    }
  }

  /**
   * `copy_to_clipboard_and_wait`. `created` is whether `Clipboard::new`
   * succeeds, `setOk` and `clearOk` whether `set_text` and `clear` do,
   * `elapsed` the clock readings and `polls` what each `poll` call reports.
   * `waits` are the timeouts the loop passes to `poll`, in order.
   */
  method CopyToClipboardAndWait(clipboard: SystemClipboard, text: string, created: bool, setOk: bool, clearOk: bool,
                                elapsed: nat -> nat, polls: nat -> Poll)
    returns (outcome: Outcome<()>, waits: seq<nat>)
    requires StrictlyIncreasing(elapsed)
    modifies clipboard
    ensures !(created && setOk) ==>
      outcome == Returned(()) && waits == [] && clipboard.contents == old(clipboard.contents) &&
      clipboard.clearCalls == old(clipboard.clearCalls)
    ensures created && setOk ==>
      var (n, exit) := WaitEnd(elapsed, polls, 0);
      && |waits| == (if exit == Expired then n else n + 1)
      && (forall j :: 0 <= j < |waits| ==> waits[j] == EXPOSURE_MS - elapsed(j) > 0)
      && (exit == ReadFailed ==>
            outcome == Panicked(UNWRAP_FAILED) && clipboard.contents == Some(text) &&
            clipboard.clearCalls == old(clipboard.clearCalls))
      && (exit != ReadFailed ==>
            clipboard.clearCalls == old(clipboard.clearCalls) + 1 &&
            clipboard.contents == (if clearOk then None else Some(text)) &&
            outcome == (if clearOk then Returned(()) else Panicked(UNWRAP_FAILED)))
  {
    waits := [];
    if !created {
      return Returned(()), waits;
    }
    var copied := clipboard.SetText(text, setOk);
    if copied.Err? {
      return Returned(()), waits;
    }
    var exit;
    exit, waits := WaitForKeyOrExpiry(elapsed, polls);
    if exit == ReadFailed {
      return Panicked(UNWRAP_FAILED), waits;
    }
    var cleared := clipboard.Clear(clearOk);
    if cleared.Err? {
      return Panicked(UNWRAP_FAILED), waits;
    }
    return Returned(()), waits;
  }
}
