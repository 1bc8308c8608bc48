/** External tools (pdftoppm, soffice, ffmpeg) as abstract runs: how the run ended, as the
    first of the adapter's handlers to fire sees it, and which files the tool created. */
module ChildProcess {
  import opened Common
  import opened Text
  import Fs

  /** How a spawned process ends. Exited is the 'close' event (code None when a signal
      ended the process), SpawnFailed the 'error' event (errno such as "ENOENT"), TimedOut
      the adapter's timer firing first. */
  datatype Outcome =
    | Exited(code: Option<int>, stderr: string)
    | SpawnFailed(errno: string, message: string)
    | TimedOut

  /** One run of a tool: its outcome and the entries it wrote into the directory. */
  datatype Run = Run(outcome: Outcome, created: Fs.Files)

  /** What one adapter call settles with (the resolved path or the rejection's message),
      and the directory it leaves. */
  datatype Done = Done(result: Result<string>, files: Fs.Files)

  /** What the adapter hands to spawn, and how long it lets the tool run (0: no timer). */
  datatype Invocation = Invocation(command: string, args: seq<string>, timeoutMs: int)

  /** `${code}` for an exit code, "null" when there is none. */
  function CodeText(code: Option<int>): (r: string)
    ensures code.Some? ==> r == IntToString(code.value)
    ensures code.None? ==> r == "null"
  {
    match code
    case None => "null"
    case Some(c) => IntToString(c)
  }

  /** The text determines the code: distinct exit codes, and a missing one, give distinct
      texts, so a failure message names the code the tool exited with. */
  lemma CodeTextInjective(a: Option<int>, b: Option<int>)
    requires CodeText(a) == CodeText(b)
    ensures a == b
  {
    if a.Some? { IntToStringSign(a.value); }
    if b.Some? { IntToStringSign(b.value); }
    if a.Some? && b.Some? {
      IntToStringInjective(a.value, b.value);
    }
  }

  /** What the executors of convertDocToPdf and convertPdfToImages throw before anything is
      spawned: `const process = spawn(command, args, { ..., env: { ...process.env } })` reads
      the block-scoped `process` inside its own initialiser, which V8 rejects with a
      ReferenceError carrying this message. */
  const ProcessUninitializedError := "Cannot access 'process' before initialization"

  /** Exactly a zero exit code counts as success (`code === 0` / `code !== 0`). */
  predicate Succeeded(o: Outcome) {
    o.Exited? && o.code == Some(0)
  }

  const DefaultTimeoutMs := 30000

  /** `options.timeout || 30000`: an absent or zero timeout falls back to 30 s, so the
      timer never has period 0. */
  function EffectiveTimeout(timeout: Option<int>): (r: int)
    ensures r != 0
    ensures timeout.Some? && timeout.value != 0 ==> r == timeout.value
    ensures timeout.None? || timeout.value == 0 ==> r == DefaultTimeoutMs
  {
    if timeout.Some? && timeout.value != 0 then timeout.value else DefaultTimeoutMs
  }

  /** checkPopplerAvailable / checkLibreOfficeAvailable: resolve(code === 0) on 'close',
      false on 'error'. These probes set no timer, so a TimedOut outcome cannot arise. */
  function ToolAvailable(o: Outcome): (available: bool)
    requires !o.TimedOut?
    ensures available <==> Succeeded(o)
    ensures o.SpawnFailed? ==> !available
  {
    match o
    case Exited(code, _) => code == Some(0)
    case SpawnFailed(_, _) => false
  }
}
