/** The guard of `log_message` in ping-to-us.py. */
module Logging {
  import opened Text

  /** The two logging switches, ENABLE_LOGGING and LOG_ONLY_ON_LOSS. */
  datatype LogConfig = LogConfig(enableLogging: bool, logOnlyOnLoss: bool)

  /** The switches as the script sets them. */
  const ScriptConfig := LogConfig(true, false)

  const LossWord: string := "loss"

  /** `loss` occurs at index `i` of `message` when letter case is ignored. */
  predicate LossAtIgnoringCase(message: string, i: int) {
    0 <= i <= |message| - |LossWord| && Lower(message[i..i + |LossWord|]) == LossWord
  }

  /** Whether `log_message(message)` writes a line: never when logging is
      off; always when it is on and not restricted to loss events; and, when
      restricted, exactly when the lower-cased message contains "loss". */
  function ShouldLog(cfg: LogConfig, message: string): (r: bool)
    ensures !cfg.enableLogging ==> !r
    ensures cfg.enableLogging && !cfg.logOnlyOnLoss ==> r
    ensures cfg.enableLogging && cfg.logOnlyOnLoss ==>
      (r <==> exists i :: OccursAt(Lower(message), LossWord, i))
  {
    ContainsIff(Lower(message), LossWord);
    cfg.enableLogging
      && (!cfg.logOnlyOnLoss || (cfg.logOnlyOnLoss && Contains(Lower(message), LossWord)))
  }

  /** With the script's own switches every message is logged. */
  lemma ScriptLogsEverything(message: string)
    ensures ShouldLog(ScriptConfig, message)
  {
  }

  /** The loss filter is a case-insensitive search for "loss": a message is
      kept exactly when some four consecutive characters spell "loss" in any
      mixture of upper and lower case. */
  lemma {:induction false} LossFilterIgnoresCase(cfg: LogConfig, message: string)
    requires cfg.enableLogging && cfg.logOnlyOnLoss
    ensures ShouldLog(cfg, message) <==> exists i :: LossAtIgnoringCase(message, i)
  {
    var low := Lower(message);
    forall i | 0 <= i <= |message| - |LossWord|
      ensures OccursAt(low, LossWord, i) <==> LossAtIgnoringCase(message, i)
    {
      LowerSlice(message, i, i + |LossWord|);
    }
    if ShouldLog(cfg, message) {
      var i :| OccursAt(low, LossWord, i);
      assert LossAtIgnoringCase(message, i);
    }
    if i :| LossAtIgnoringCase(message, i) {
      assert OccursAt(low, LossWord, i);
    }
  }

  /** Lower-casing a message first does not change whether it is logged. */
  lemma {:induction false} LoggingIsCaseInsensitive(cfg: LogConfig, message: string)
    ensures ShouldLog(cfg, Lower(message)) == ShouldLog(cfg, message)
  {
    LowerIdempotent(message);
  }
}
