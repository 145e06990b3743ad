/**
 The hook prepended to Wisper's three `subscribe` entry points (`Wisper.subscribe`,
 `Publisher#subscribe` and `Publisher.subscribe`): before the subscription goes
 ahead, the listener is registered as a safe type, so that jobs addressed to it
 can be loaded back from YAML (trust on subscribe).
 */
module PublisherExtensions {
  import opened RubyArray
  import opened SidekiqConfig

  /** The part of `SubscribeRegisterTypes#subscribe` before `super`: registers
      `listener` with the process-wide configuration. The subscription itself
      (`super`) is Wisper's and is not part of this model. */
  method Subscribe(config: Config, listener: Value)
    requires config.Valid()
    modifies config`initialised, config`sharesDefault, config`safeTypes
    ensures config.Valid() && config.initialised && !config.Pristine()
    ensures config.Current() == Registered(old(config.Current()), [listener])
    ensures forall t :: MentionedBy(listener, t) ==> Obj(t) in config.Current()
  {
    ghost var before := config.Current();
    var _ := config.RegisterSafeTypes([listener]);
    forall t | MentionedBy(listener, t) ensures Obj(t) in config.Current() {
      assert [listener][0] == listener;
      RegisteredMembers(before, [listener], t);
    }
  }
}
