/** src/hooks/useErrorHandler.ts: the queue of toasts on screen. It is React
    state only, not persisted. The clock and `Math.random` are parameters. */
module ErrorHandler {
  import opened Wrappers
  import opened Text
  import opened Types
  import opened Seqs

  /** `Omit<AppError, 'id' | 'timestamp'>`: what a caller reports. */
  datatype Report = Report(kind: ErrorKind, message: string, details: Option<string>)

  /** A character of `Math.random().toString(36)`. */
  predicate IsBase36(c: char) {
    IsDigit(c) || 'a' <= c <= 'z'
  }

  /** `Date.now().toString() + Math.random().toString(36).substr(2, 9)`
      (line 11), with the random characters given. */
  function ErrorId(now: nat, random: string): (r: string)
    ensures (forall c :: c in random ==> IsBase36(c)) ==> forall c :: c in r ==> IsBase36(c)
  {
    DecimalText(now) + random
  }

  /** The toast `addError` appends (lines 9-13). */
  function NewError(report: Report, id: string, timestamp: string): AppError {
    AppError(id, report.kind, report.message, report.details, timestamp)
  }

  /** `prev.filter(error => error.timestamp !== timestamp)` (line 18). */
  function WithoutTimestamp(errors: seq<AppError>, timestamp: string): seq<AppError> {
    Filter(errors, (e: AppError) => e.timestamp != timestamp)
  }

  /** The same filter on the toast's id. */
  function WithoutId(errors: seq<AppError>, id: string): seq<AppError> {
    Filter(errors, (e: AppError) => e.id != id)
  }

  /** The page closes a toast with `removeError(error.id)`
      (src/app/page.tsx:111). An id is made of base-36 characters and an ISO
      time holds `-`, so no timestamp equals an id and nothing is removed. */
  lemma CloseByIdAsWritten(errors: seq<AppError>, e: AppError)
    requires forall x :: x in errors ==> '-' in x.timestamp
    requires forall c :: c in e.id ==> IsBase36(c)
    ensures WithoutTimestamp(errors, e.id) == errors
  {
    forall x | x in errors ensures x.timestamp != e.id {
      assert '-' in x.timestamp && !IsBase36('-');
    }
    FilterKeepsAll(errors, (x: AppError) => x.timestamp != e.id);
  }

  /** An instance: the toast stays on screen after its close button. */
  lemma CloseByIdKeepsToast()
    ensures var e := NewError(Report(Error, "oops", None), "1700000000000abc", "2023-11-14T22:13:20.000Z");
      WithoutTimestamp([e], e.id) == [e]
  {
    var e := NewError(Report(Error, "oops", None), "1700000000000abc", "2023-11-14T22:13:20.000Z");
    assert e.timestamp[4] == '-';
    var id := e.id;
    forall i | 0 <= i < |id| ensures IsBase36(id[i]) {
      if i < 13 {
        assert IsDigit(id[i]);
      } else {
        assert 'a' <= id[i] <= 'c';
      }
    }
    CloseByIdAsWritten([e], e);
  }

  /** Closing by id removes the toast and every toast with the same id, and
      keeps every other toast in its order. */
  lemma CloseByIdRemovesToast(errors: seq<AppError>, e: AppError, later: seq<AppError>)
    ensures e !in WithoutId(errors, e.id)
    ensures forall x :: x in WithoutId(errors, e.id) <==> x in errors && x.id != e.id
    ensures WithoutId(errors + later, e.id) == WithoutId(errors, e.id) + WithoutId(later, e.id)
  {
    FilterConcat(errors, later, (x: AppError) => x.id != e.id);
  }

  /** `useErrorHandler()`: the list of toasts. */
  class ErrorQueue {
    var errors: seq<AppError>

    /** `useState<AppError[]>([])` (line 5). */
    constructor()
      ensures errors == []
    {
      errors := [];
    }

    /** `addError(error)` (lines 8-15). */
    method AddError(report: Report, now: nat, random: string, timestamp: string)
      modifies this
      ensures errors == old(errors) + [NewError(report, ErrorId(now, random), timestamp)]
    {
      errors := errors + [NewError(report, ErrorId(now, random), timestamp)];
    }

    /** `removeError(timestamp)` (lines 17-19). */
    method RemoveError(timestamp: string)
      modifies this
      ensures errors == WithoutTimestamp(old(errors), timestamp)
    {
      errors := WithoutTimestamp(errors, timestamp);
    }

    /** Removing the toast the close button belongs to, by its id. */
    method RemoveErrorById(id: string)
      modifies this
      ensures errors == WithoutId(old(errors), id)
    {
      errors := WithoutId(errors, id);
    }

    /** A toast's close button (src/app/page.tsx:111), removing the toast it
        belongs to. */
    method CloseToast(e: AppError)
      modifies this
      ensures errors == WithoutId(old(errors), e.id) && e !in errors
    {
      RemoveErrorById(e.id);
      CloseByIdRemovesToast(old(errors), e, []);
    }

    /** `clearErrors()` (lines 21-23). */
    method ClearErrors()
      modifies this
      ensures errors == []
    {
      errors := [];
    }
  }
}
