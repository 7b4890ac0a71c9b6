/** The Logger class: a level mask that filters messages, and the severity
    prefix that msg writes before each message it keeps. Masks are int32 bit
    sets and are modelled by their 32-bit patterns. */
module Logging {

  const LOG_INFO1: bv32 := 0x0001
  const LOG_INFO2: bv32 := 0x0002
  const LOG_INFO3: bv32 := 0x0004
  const LOG_INFO4: bv32 := 0x0008
  const LOG_INFO: bv32 := 0x0010
  const LOG_WARNING: bv32 := 0x0020
  const LOG_ERROR: bv32 := 0x0040
  const LOG_FATAL_ERROR: bv32 := 0x0080
  const LOG_DEBUG: bv32 := 0x1000
  const LOG_ALL: bv32 := 0xFFFF

  const LOG_VERBOSE: bv32 := LOG_ALL ^ LOG_DEBUG
  const LOG_DEFAULT: bv32 := LOG_VERBOSE
  const LOG_QUIET: bv32 := LOG_WARNING | LOG_ERROR | LOG_FATAL_ERROR

  const FATAL_PREFIX := "** FATAL ERROR: "
  const ERROR_PREFIX := "ERROR: "
  const WARNING_PREFIX := "WARNING: "
  const EXIT_NOTICE := "** Exiting on FATAL ERROR\n"

  /** msg's filter: a message is kept when it shares a bit with the mask or is
      a fatal error. */
  predicate Cares(level: bv32, mask: bv32)
    ensures Cares(level, mask) <==> (level & (mask | LOG_FATAL_ERROR)) != 0
  {
    (level & mask) != 0 || (level & LOG_FATAL_ERROR) != 0
  }

  predicate IsFatal(level: bv32) {
    (level & LOG_FATAL_ERROR) != 0
  }

  /** The prefix msg prints: the most severe of fatal error, error and warning
      among the level's bits; nothing for info and other levels. */
  function Prefix(level: bv32): (p: string)
    ensures p == FATAL_PREFIX <==> IsFatal(level)
    ensures p in {FATAL_PREFIX, ERROR_PREFIX, WARNING_PREFIX, ""}
  {
    if (level & LOG_FATAL_ERROR) != 0 then FATAL_PREFIX
    else if (level & LOG_ERROR) != 0 then ERROR_PREFIX
    else if (level & LOG_WARNING) != 0 then WARNING_PREFIX
    else ""
  }

  /** A fatal error gets through whatever the mask. */
  lemma FatalAlwaysKept(level: bv32, mask: bv32)
    requires IsFatal(level)
    ensures Cares(level, mask)
    ensures Prefix(level) == FATAL_PREFIX
  {
  }

  /** The default mask keeps every level except one made of the debug bit and
      bits above kLogAll alone. */
  lemma DefaultMaskKeeps(level: bv32)
    ensures Cares(level, LOG_DEFAULT) <==> (level & 0xEFFF) != 0
  {
  }

  /** The quiet mask keeps exactly warnings, errors and fatal errors. */
  lemma QuietMaskKeeps(level: bv32)
    ensures Cares(level, LOG_QUIET) <==> (level & (LOG_WARNING | LOG_ERROR | LOG_FATAL_ERROR)) != 0
  {
  }

  /** With no mask bits set, only fatal errors get through. */
  lemma EmptyMaskKeeps(level: bv32)
    ensures Cares(level, 0) <==> IsFatal(level)
  {
  }

  /** The prefix names the most severe bit: error beats warning, and a
      warning-only or info level gets its own prefix or none. */
  lemma PrefixBySeverity(level: bv32)
    ensures Prefix(level) == ERROR_PREFIX <==> !IsFatal(level) && (level & LOG_ERROR) != 0
    ensures Prefix(level) == WARNING_PREFIX <==>
              !IsFatal(level) && (level & LOG_ERROR) == 0 && (level & LOG_WARNING) != 0
    ensures Prefix(level) == "" <==> (level & LOG_QUIET) == 0
  {
  }

  /** What a call of msg ends in: a return with its status, or the process
      exiting with the given code after a fatal error. */
  datatype MsgResult = Returned(status: int) | Exited(code: int)

  class Logger {
    var logLevelMask: bv32
    /** fpStdout != nullptr */
    var hasStdout: bool
    /** fpStderr != nullptr */
    var hasStderr: bool
    var doFlushFlag: bool
    /** The text msg has written to fpStdout, one entry per fprintf/vfprintf pair. */
    var written: seq<string>

    /** Logger(): runs init. doFlushFlag is left as it was allocated. */
    constructor()
      ensures logLevelMask == LOG_DEFAULT && !hasStdout && !hasStderr && written == []
    {
      written := [];
      new;
      Init();
    }

    method Init()
      modifies this
      ensures logLevelMask == LOG_DEFAULT && !hasStdout && !hasStderr
      ensures doFlushFlag == old(doFlushFlag) && written == old(written)
    {
      logLevelMask := LOG_DEFAULT;
      hasStdout := false;
      hasStderr := false;
    }

    method SetFlush(f: bool)
      modifies this
      ensures doFlushFlag == f
      ensures logLevelMask == old(logLevelMask) && hasStdout == old(hasStdout)
      ensures hasStderr == old(hasStderr) && written == old(written)
    {
      doFlushFlag := f;
    }

    method SetLogLevelMask(m: bv32)
      modifies this
      ensures logLevelMask == m
      ensures doFlushFlag == old(doFlushFlag) && hasStdout == old(hasStdout)
      ensures hasStderr == old(hasStderr) && written == old(written)
    {
      logLevelMask := m;
    }

    /** setStdout(fp), with open standing for fp != nullptr. */
    method SetStdout(open: bool)
      modifies this
      ensures hasStdout == open
      ensures logLevelMask == old(logLevelMask) && doFlushFlag == old(doFlushFlag)
      ensures hasStderr == old(hasStderr) && written == old(written)
    {
      hasStdout := open;
    }

    /** setStderr(fp), with open standing for fp != nullptr. */
    method SetStderr(open: bool)
      modifies this
      ensures hasStderr == open
      ensures logLevelMask == old(logLevelMask) && doFlushFlag == old(doFlushFlag)
      ensures hasStdout == old(hasStdout) && written == old(written)
    {
      hasStderr := open;
    }

    /** msg(levelMask, fmt, ...), with text standing for the formatted message.
        Ignored or unwritable messages return -1 and write nothing; a kept
        message is written after its prefix and returns 0, except that a fatal
        error also writes the exit notice and ends the process with -1. */
    method Msg(levelMask: bv32, text: string) returns (res: MsgResult)
      modifies this
      ensures logLevelMask == old(logLevelMask) && doFlushFlag == old(doFlushFlag)
      ensures hasStdout == old(hasStdout) && hasStderr == old(hasStderr)
      ensures !Cares(levelMask, logLevelMask) || !hasStdout ==>
                res == Returned(-1) && written == old(written)
      ensures Cares(levelMask, logLevelMask) && hasStdout ==>
                written == old(written) + [Prefix(levelMask) + text]
                           + (if IsFatal(levelMask) then [EXIT_NOTICE] else [])
                && res == (if IsFatal(levelMask) then Exited(-1) else Returned(0))
    {
      if !Cares(levelMask, logLevelMask) {
        return Returned(-1);
      }
      if !hasStdout {
        return Returned(-1);
      }
      var prefix := "";
      if (levelMask & LOG_FATAL_ERROR) != 0 {
        prefix := FATAL_PREFIX;
      } else if (levelMask & LOG_ERROR) != 0 {
        prefix := ERROR_PREFIX;
      } else if (levelMask & LOG_WARNING) != 0 {
        prefix := WARNING_PREFIX;
      }
      written := written + [prefix + text];
      if (levelMask & LOG_FATAL_ERROR) != 0 {
        written := written + [EXIT_NOTICE];
        return Exited(-1);
      }
      return Returned(0);
    }
  }
}
