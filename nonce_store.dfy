/**
 * The nonce store: the set of nonces already used, kept in memory and mirrored
 * by an append-only log file with one nonce per line.
 *
 * The store's reader/writer lock is not modelled: every operation runs alone.
 * The log file is the string `log` (its whole text; empty when the file does
 * not exist), and a failing append is the parameter `appendOk`.
 */
module NonceStore {
  import opened Common
  import opened Text

  /** The line terminator `File.AppendAllLines` writes after each line. */
  const NewLine: string := "\n"

  /** The observable state of a store: the set in memory and the text of the log. */
  datatype Ledger = Ledger(used: set<string>, log: string)

  /** The nonces the loading loop collects from the lines of a log: each line
      trimmed, blank lines skipped. */
  function NoncesOfLines(lines: seq<string>): set<string>
    decreases |lines|
  {
    if lines == [] then {}
    else
      var last := Trim(lines[|lines| - 1]);
      NoncesOfLines(lines[..|lines| - 1]) + (if last != [] then {last} else {})
  }

  /** The set a store loads from a log file with the given text. It never
      holds an empty nonce or one with surrounding white space. */
  function LoggedNonces(log: string): (r: set<string>)
    ensures forall x :: x in r ==> x != [] && IsTrimmed(x)
  {
    var lines := ReadAllLines(log);
    assert forall x :: x in NoncesOfLines(lines) ==> x != [] && IsTrimmed(x) by {
      forall x | x in NoncesOfLines(lines) ensures x != [] && IsTrimmed(x) {
        NoncesOfLinesSound(lines, x);
      }
    }
    NoncesOfLines(lines)
  }

  /** A nonce that reads back unchanged after being written as a line of the
      log: non-empty, no line break, no surrounding white space. */
  predicate WellFormedNonce(nonce: string)
  {
    nonce != [] && IsTrimmed(nonce) && forall c :: c in nonce ==> !IsLineBreak(c)
  }

  /** The set in memory is exactly what reloading the log would give, and the
      log ends with a terminator, so the next append starts a line of its own. */
  predicate InSync(l: Ledger)
  {
    l.used == LoggedNonces(l.log) && EndsWithLineBreak(l.log)
  }

  /** `AddNonce`: a used nonce is refused without any change; otherwise the
      nonce is appended to the log and only then inserted into the set, so an
      append that throws leaves the store as it was. */
  function Add(l: Ledger, nonce: string, appendOk: bool): (r: (Try<bool>, Ledger))
    ensures r.0 == Returned(true) <==> nonce !in l.used && appendOk
    ensures r.0 == Returned(false) <==> nonce in l.used
    ensures r.0 != Returned(true) ==> r.1 == l
    ensures nonce in r.1.used <==> r.0.Returned?
  {
    if nonce in l.used then (Returned(false), l)
    else if !appendOk then (Threw(IOException), l)
    else (Returned(true), Ledger(l.used + {nonce}, l.log + nonce + NewLine))
  }

  /** A sequence of `AddNonce` calls, each with the outcome of its append. */
  function AddAll(l: Ledger, calls: seq<(string, bool)>): Ledger
    decreases |calls|
  {
    if calls == [] then l
    else AddAll(Add(l, calls[0].0, calls[0].1).1, calls[1..])
  }

  // ---------------------------------------------------------------------------
  // Properties of AddNonce

  /** A nonce not yet used is admitted: `true`, the set gains exactly that nonce
      and the log gains exactly one line holding it. */
  lemma AddFresh(l: Ledger, nonce: string)
    requires nonce !in l.used
    ensures Add(l, nonce, true).0 == Returned(true)
    ensures Add(l, nonce, true).1.used == l.used + {nonce}
    ensures Add(l, nonce, true).1.log == l.log + nonce + "\n"
    ensures WellFormedNonce(nonce) && EndsWithLineBreak(l.log) ==>
              ReadAllLines(Add(l, nonce, true).1.log) == ReadAllLines(l.log) + [nonce]
  {
    if WellFormedNonce(nonce) && EndsWithLineBreak(l.log) {
      ReadAllLinesAppend(l.log, nonce);
    }
  }

  /** A used nonce is refused and nothing changes, whatever the file would do. */
  lemma AddUsed(l: Ledger, nonce: string, appendOk: bool)
    requires nonce in l.used
    ensures Add(l, nonce, appendOk) == (Returned(false), l)
  {
  }

  /** The append comes first: when it fails, the set is not touched. */
  lemma AddAppendFails(l: Ledger, nonce: string)
    ensures Add(l, nonce, false).1 == l
    ensures Add(l, nonce, false).0 == (if nonce in l.used then Returned(false) else Threw(IOException))
  {
  }

  /** Exactly once: a nonce admitted by one call is refused by every later call. */
  lemma AddOnce(l: Ledger, nonce: string, ok1: bool, ok2: bool)
    requires Add(l, nonce, ok1).0 == Returned(true)
    ensures Add(Add(l, nonce, ok1).1, nonce, ok2) == (Returned(false), Add(l, nonce, ok1).1)
  {
  }

  /** Nothing is ever removed: the set only grows and the log is only appended to. */
  lemma {:induction false} AddAllGrows(l: Ledger, calls: seq<(string, bool)>)
    ensures l.used <= AddAll(l, calls).used
    ensures l.log <= AddAll(l, calls).log
    decreases |calls|
  {
    if calls != [] {
      var l' := Add(l, calls[0].0, calls[0].1).1;
      AddAllGrows(l', calls[1..]);
    }
  }

  // ---------------------------------------------------------------------------
  // Reloading the log

  /** Loading a missing or empty file gives the empty set. */
  lemma LoggedNoncesEmpty()
    ensures LoggedNonces([]) == {}
  {
  }

  /** The loading loop's step: one more line adds its trimmed text unless blank. */
  lemma NoncesOfLinesSnoc(lines: seq<string>, line: string)
    ensures NoncesOfLines(lines + [line])
         == NoncesOfLines(lines) + (if Trim(line) != [] then {Trim(line)} else {})
  {
    assert (lines + [line])[..|lines|] == lines;
  }

  /** The same step, on a prefix of the lines. */
  lemma NoncesOfLinesStep(lines: seq<string>, i: nat)
    requires i < |lines|
    ensures NoncesOfLines(lines[..i + 1])
         == NoncesOfLines(lines[..i]) + (if Trim(lines[i]) != [] then {Trim(lines[i])} else {})
  {
    assert lines[..i + 1][..i] == lines[..i];
  }

  /** A blank line (empty or white space only) contributes nothing on reload. */
  lemma BlankLineIgnored(lines: seq<string>, blank: string)
    requires AllWhiteSpace(blank)
    ensures NoncesOfLines(lines + [blank]) == NoncesOfLines(lines)
  {
    TrimEmptyIffBlank(blank);
    NoncesOfLinesSnoc(lines, blank);
  }

  /** The line `line` loads as the nonce `x`. */
  predicate LoadsAs(line: string, x: string)
  {
    x != [] && Trim(line) == x
  }

  /** Every nonce loaded comes from one of the lines. */
  lemma {:induction false} NoncesOfLinesSound(lines: seq<string>, x: string)
    requires x in NoncesOfLines(lines)
    ensures exists k :: 0 <= k < |lines| && LoadsAs(lines[k], x)
    decreases |lines|
  {
    var n := |lines| - 1;
    var init := lines[..n];
    var last := Trim(lines[n]);
    assert NoncesOfLines(lines) == NoncesOfLines(init) + (if last != [] then {last} else {});
    if x in NoncesOfLines(init) {
      NoncesOfLinesSound(init, x);
      var k :| 0 <= k < |init| && LoadsAs(init[k], x);
      assert lines[k] == init[k];
    } else {
      assert LoadsAs(lines[n], x);
    }
  }


  /** Every line's trimmed, non-empty text is loaded. */
  lemma {:induction false} NoncesOfLinesComplete(lines: seq<string>, k: nat, x: string)
    requires k < |lines| && LoadsAs(lines[k], x)
    ensures x in NoncesOfLines(lines)
    decreases |lines|
  {
    var n := |lines| - 1;
    if k < n {
      var init := lines[..n];
      assert init[k] == lines[k];
      NoncesOfLinesComplete(init, k, x);
      assert x in NoncesOfLines(init);
    } else {
      assert x == Trim(lines[n]);
    }
  }

  /** Adding a well-formed nonce to a store in sync with its log keeps it in
      sync: a reload after the call rebuilds the set the call left in memory. */
  lemma AddKeepsInSync(l: Ledger, nonce: string, appendOk: bool)
    requires InSync(l) && WellFormedNonce(nonce)
    ensures InSync(Add(l, nonce, appendOk).1)
  {
    if nonce !in l.used && appendOk {
      var l' := Add(l, nonce, appendOk).1;
      ReadAllLinesAppend(l.log, nonce);
      NoncesOfLinesSnoc(ReadAllLines(l.log), nonce);
      TrimOfTrimmed(nonce);
      assert l'.log[|l'.log| - 1] == '\n';
    }
  }

  /** Reload round trip: after any sequence of `AddNonce` calls with well-formed
      nonces, starting from a store in sync with its log (a fresh store over a
      missing file, say), reloading the log rebuilds exactly the set in memory. */
  lemma {:induction false} ReloadAfterAdds(l: Ledger, calls: seq<(string, bool)>)
    requires InSync(l)
    requires forall k :: 0 <= k < |calls| ==> WellFormedNonce(calls[k].0)
    ensures InSync(AddAll(l, calls))
    ensures LoggedNonces(AddAll(l, calls).log) == AddAll(l, calls).used
    decreases |calls|
  {
    if calls != [] {
      var l' := Add(l, calls[0].0, calls[0].1).1;
      var rest := calls[1..];
      assert WellFormedNonce(calls[0].0);
      AddKeepsInSync(l, calls[0].0, calls[0].1);
      forall k | 0 <= k < |rest| ensures WellFormedNonce(rest[k].0) {
        assert rest[k] == calls[k + 1];
      }
      ReloadAfterAdds(l', rest);
      assert AddAll(l, calls) == AddAll(l', rest);
    }
  }

  /** A nonce with surrounding white space is stored as given but reloaded
      trimmed: after a restart the nonce itself no longer counts as used (its
      trimmed form does instead). */
  lemma PaddedNonceLostOnReload(l: Ledger, nonce: string)
    requires InSync(l) && nonce !in l.used
    requires nonce != [] && forall c :: c in nonce ==> !IsLineBreak(c)
    requires Trim(nonce) != nonce
    ensures var l' := Add(l, nonce, true).1;
            nonce in l'.used && nonce !in LoggedNonces(l'.log)
            && (Trim(nonce) != [] ==> Trim(nonce) in LoggedNonces(l'.log))
  {
    var l' := Add(l, nonce, true).1;
    ReadAllLinesAppend(l.log, nonce);
    NoncesOfLinesSnoc(ReadAllLines(l.log), nonce);
    assert LoggedNonces(l'.log) == l.used + (if Trim(nonce) != [] then {Trim(nonce)} else {});
  }

  /** The nonce " n", for one. */
  lemma PaddedNonceExample()
    ensures Trim(" n") == "n" && " n" !in LoggedNonces(" n" + NewLine)
  {
    assert " n"[1..] == "n";
    assert TrimStart("n") == "n";
    assert TrimStart(" n") == "n";
    LoggedNoncesEmpty();
    assert InSync(Ledger({}, []));
    PaddedNonceLostOnReload(Ledger({}, []), " n");
    assert [] + " n" + NewLine == " n" + NewLine;
  }

  /** A well-formed nonce written as a line of its own loads as itself. */
  lemma NoncesOfLinesWellFormed(lines: seq<string>, nonce: string)
    requires WellFormedNonce(nonce)
    ensures NoncesOfLines(lines + [nonce]) == NoncesOfLines(lines) + {nonce}
  {
    TrimOfTrimmed(nonce);
    NoncesOfLinesSnoc(lines, nonce);
  }

  /** A nonce holding a line break is written as two lines and reloads as two
      other nonces: "a\nb" comes back as "a" and "b", and is itself absent. */
  lemma LineBreakNonceLostOnReload(l: Ledger, a: string, b: string)
    requires InSync(l) && WellFormedNonce(a) && WellFormedNonce(b)
    requires a + "\n" + b !in l.used
    ensures var l' := Add(l, a + "\n" + b, true).1;
            && a + "\n" + b in l'.used
            && LoggedNonces(l'.log) == l.used + {a, b}
            && a + "\n" + b !in LoggedNonces(l'.log)
  {
    var n := a + "\n" + b;
    var l' := Add(l, n, true).1;
    assert l'.used == l.used + {n} && l'.log == l.log + n + NewLine;
    assert LoggedNonces(l'.log) == l.used + {a} + {b} by {
      TwoLinesLogged(l.log, a, b);
    }
    assert n != a && n != b by {
      assert |n| == |a| + 1 + |b|;
    }
  }

  /** Two well-formed lines appended to a log load as two more nonces. */
  lemma TwoLinesLogged(log: string, a: string, b: string)
    requires EndsWithLineBreak(log) && WellFormedNonce(a) && WellFormedNonce(b)
    ensures LoggedNonces(log + (a + "\n" + b) + NewLine) == LoggedNonces(log) + {a} + {b}
  {
    var first := log + a + "\n";
    var lines := ReadAllLines(log);
    assert log + (a + "\n" + b) + NewLine == first + b + "\n";
    assert ReadAllLines(first + b + "\n") == lines + [a] + [b] by {
      ReadAllLinesAppend(log, a);
      assert EndsWithLineBreak(first);
      ReadAllLinesAppend(first, b);
    }
    NoncesOfLinesWellFormed(lines, a);
    NoncesOfLinesWellFormed(lines + [a], b);
  }




  // ---------------------------------------------------------------------------
  // The store object

  class NonceStore {
    /** The nonces in memory (`_usedNonces`). */
    var used: set<string>
    /** The text of the log file. */
    var log: string

    function State(): Ledger
      reads this
    {
      Ledger(used, log)
    }

    /** Opens the store over a log file: `existing` is its text, `None` when the
        file does not exist; the set is loaded from it. */
    constructor (existing: Option<string>)
      ensures existing.None? ==> log == [] && used == {}
      ensures existing.Some? ==> log == existing.value && used == LoggedNonces(log)
    {
      log := if existing.Some? then existing.value else [];
      used := {};
      new;
      LoadNonces(existing.Some?);
    }

    /** Adds every trimmed, non-blank line of the log file to the set; nothing
        when the file does not exist. */
    method LoadNonces(fileExists: bool)
      modifies this`used
      ensures used == old(used) + (if fileExists then LoggedNonces(log) else {})
    {
      if !fileExists {
        return;
      }
      var lines := ReadAllLines(log);
      for i := 0 to |lines|
        invariant used == old(used) + NoncesOfLines(lines[..i])
      {
        NoncesOfLinesStep(lines, i);
        var nonce := Trim(lines[i]);
        if nonce != [] {
          used := used + {nonce};
        }
      }
      assert lines[..|lines|] == lines;
    }

    /** Whether the nonce has been used; changes nothing. */
    method IsNonceUsed(nonce: string) returns (r: bool)
      ensures r <==> nonce in used
    {
      r := nonce in used;
    }

    /** Check and insert: see `Add`. */
    method AddNonce(nonce: string, appendOk: bool) returns (r: Try<bool>)
      modifies this
      ensures (r, State()) == Add(old(State()), nonce, appendOk)
    {
      if nonce in used {
        return Returned(false);  // already used: a replay
      }
      if !appendOk {
        return Threw(IOException);  // File.AppendAllLines threw before the insert
      }
      log := log + nonce + NewLine;
      used := used + {nonce};
      return Returned(true);
    }
  }
}
