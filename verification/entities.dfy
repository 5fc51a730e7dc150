/**
 * The mutable objects the runtime side shares with the framework: a plain
 * options object passed to translation calls, and the user record, whose
 * `lock`, `set('lang', ...)`, `save` and `unlock` are recorded in a journal
 * (locking is a recorded event here, not concurrency control).
 */
module Entities {
  import opened Wrappers
  import opened Json

  /** A JavaScript object updated in place: its own properties. */
  class JsObject {
    var fields: map<string, Json>

    constructor(fields: map<string, Json>)
      ensures this.fields == fields
    {
      this.fields := fields;
    }

    /** `obj[key] = value` */
    method Set(key: string, value: Json)
      modifies this
      ensures fields == old(fields)[key := value]
    {
      fields := fields[key := value];
    }
  }

  /** What was done to a user record, in order. */
  datatype UserOp = Lock | SetLang(lang: string) | Save | Unlock

  class User {
    /** `user.get('lang')`: absent, or the stored string. */
    var lang: Option<string>
    var journal: seq<UserOp>

    constructor(lang: Option<string>)
      ensures this.lang == lang && journal == []
    {
      this.lang := lang;
      journal := [];
    }

    /** `await user.lock()` */
    method Lock()
      modifies this
      ensures lang == old(lang) && journal == old(journal) + [UserOp.Lock]
    {
      journal := journal + [UserOp.Lock];
    }

    /** `user.set('lang', value)` */
    method SetLang(value: string)
      modifies this
      ensures lang == Some(value) && journal == old(journal) + [UserOp.SetLang(value)]
    {
      lang := Some(value);
      journal := journal + [UserOp.SetLang(value)];
    }

    /** `await user.save()`: whether the store accepts it is outside the model, so it is a parameter. */
    method Save(succeeds: bool) returns (ok: bool)
      modifies this
      ensures ok == succeeds
      ensures lang == old(lang) && journal == old(journal) + [UserOp.Save]
    {
      journal := journal + [UserOp.Save];
      ok := succeeds;
    }

    /** `user.unlock()` */
    method Unlock()
      modifies this
      ensures lang == old(lang) && journal == old(journal) + [UserOp.Unlock]
    {
      journal := journal + [UserOp.Unlock];
    }
  }
}
