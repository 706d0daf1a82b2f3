/** The registry of conversion rules. A rule pairs a reader, which fetches the
    snippets of one configuration section, with a writer, which emits them.
    A reader is represented by its outcome: the section it returns or the
    error it fails with. A writer is represented by the output target it
    writes to (`convGoTo` writes to the Go target). */
module Registry {
  import opened Outcomes
  import Config
  import Emitter

  datatype ConvertRule = ConvertRule(ruleFrom: Result<Config.Section>, ruleTo: Emitter.Target)

  /** `converterMap.Converters`: rule key to rule. */
  type Registry = map<string, ConvertRule>

  /** `addConvertRule`: registers a rule under `ruleKey`, silently replacing
      any rule registered there before; every other key is left alone. */
  function AddConvertRule(cm: Registry, ruleKey: string, ruleFrom: Result<Config.Section>, ruleTo: Emitter.Target): (r: Registry)
    ensures ruleKey in r && r[ruleKey] == ConvertRule(ruleFrom, ruleTo)
    ensures r.Keys == cm.Keys + {ruleKey}
    ensures forall k :: k in cm && k != ruleKey ==> r[k] == cm[k]
  {
    cm[ruleKey := ConvertRule(ruleFrom, ruleTo)]
  }

  /** Registering twice under one key keeps only the second rule. */
  lemma AddConvertRuleOverwrites(cm: Registry, ruleKey: string,
                                 from1: Result<Config.Section>, to1: Emitter.Target,
                                 from2: Result<Config.Section>, to2: Emitter.Target)
    ensures AddConvertRule(AddConvertRule(cm, ruleKey, from1, to1), ruleKey, from2, to2)
         == AddConvertRule(cm, ruleKey, from2, to2)
  {
  }

  /** Rules registered under different keys do not interfere, whatever the
      order of registration. */
  lemma AddConvertRuleCommutes(cm: Registry,
                               key1: string, from1: Result<Config.Section>, to1: Emitter.Target,
                               key2: string, from2: Result<Config.Section>, to2: Emitter.Target)
    requires key1 != key2
    ensures AddConvertRule(AddConvertRule(cm, key1, from1, to1), key2, from2, to2)
         == AddConvertRule(AddConvertRule(cm, key2, from2, to2), key1, from1, to1)
  {
  }

  /** `convert`: visits every rule once, in no particular order. A rule whose
      reader fails is logged and skipped; otherwise its writer is called with
      the reader's snippets and whatever it returns is dropped. `ran` maps
      each rule whose writer is called to the snippets it is called with, and
      `skipped` maps each skipped rule to its reader's error; both are
      decided by the readers alone. The writer calls themselves are carried
      out from `ran` by the caller: since no writer's result is looked at
      and no reader depends on a writer, doing them after the visit changes
      nothing. */
  method Convert(cm: Registry) returns (ran: map<string, Config.Section>, skipped: map<string, Error>)
    ensures ran.Keys !! skipped.Keys
    ensures ran.Keys + skipped.Keys == cm.Keys
    ensures forall k :: k in ran ==> cm[k].ruleFrom == Success(ran[k])
    ensures forall k :: k in skipped ==> cm[k].ruleFrom == Failure(skipped[k])
  {
    ran, skipped := map[], map[];
    var pending := cm.Keys;
    while pending != {}
      invariant pending <= cm.Keys
      invariant ran.Keys !! skipped.Keys
      invariant ran.Keys + skipped.Keys == cm.Keys - pending
      invariant forall k :: k in ran ==> k in cm && cm[k].ruleFrom == Success(ran[k])
      invariant forall k :: k in skipped ==> k in cm && cm[k].ruleFrom == Failure(skipped[k])
      decreases pending
    {
      var k :| k in pending;
      pending := pending - {k};
      match cm[k].ruleFrom
      case Failure(e) =>
        skipped := skipped[k := e];
      case Success(snippets) =>
        ran := ran[k := snippets];
    }
  }
}
