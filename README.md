# wisper-sidekiq: the safe-type registry

wisper-sidekiq runs Wisper event listeners as Sidekiq background jobs. A job's
arguments travel as YAML. When a job is loaded back, only the classes on an
allow-list may be rebuilt, unless the process opted into unsafe YAML. This
project models that process-wide configuration, `Wisper::Sidekiq::Config`:

- the allow-list `@safe_types`. It stays `nil` until first used, then becomes
  the frozen `DEFAULT_SAFE_TYPES` (`[Class, Symbol, Time]`), and after a
  registration it is a private array;
- `register_safe_types(*types)`, which appends the arguments, flattens nested
  arrays and removes duplicates, keeping the first occurrence of each;
- the one-way switch `use_unsafe_yaml!`;
- the subscription hook that registers every subscribed listener as a safe type.

Files:

- `ruby_array.dfy` (module `RubyArray`) holds the Ruby values passed to
  registration (`Value`: a single object, or a nested array). It also holds
  Ruby's `Array#flatten` and `Array#uniq` as the functions `Flatten` and `Uniq`,
  with the lemmas that characterise them.
- `sidekiq_config.dfy` (module `SidekiqConfig`) holds `DefaultSafeTypes`, the
  specification function `Registered(current, types) = Uniq(Flatten(current +
  types))` with its properties, and the class `Config`. `Config` has one field
  per piece of Ruby state, plus `sharesDefault`. That flag records whether
  `@safe_types` is still the frozen default array. The in-place `flatten!` and
  `uniq!` require the flag to be off, so the model proves that registration
  never triggers Ruby's `FrozenError`.
- `publisher_extensions.dfy` (module `PublisherExtensions`) holds the
  trust-on-subscribe hook.

The allow-list is an ordered Ruby array, not a set. Registering `[A, B]` and
registering `[B, A]` leave different orders behind. `RegisteredKeepsOrder`
proves the order that registration produces.

## Model

| member | source | states |
|---|---|---|
| RubyArray.Flatten | lib/wisper/sidekiq/config.rb:24 | the result of `flatten!` never holds a nested array |
| RubyArray.FlattenMentions | lib/wisper/sidekiq/config.rb:24 | a type is in the flattened array iff it occurs in the input at some nesting depth: nothing is lost or invented |
| RubyArray.FlattenAppend | lib/wisper/sidekiq/config.rb:23-24 | flattening `current + types` is flattening each part and concatenating |
| RubyArray.FlattenOfFlat | lib/wisper/sidekiq/config.rb:24 | an array with no nested arrays is left unchanged, so the existing allow-list survives `flatten!` unchanged |
| RubyArray.FlattenIdempotent | lib/wisper/sidekiq/config.rb:24 | flattening twice equals flattening once |
| RubyArray.Uniq | lib/wisper/sidekiq/config.rb:25 | the result of `uniq!` has no duplicates and holds exactly the input's elements |
| RubyArray.UniqShrinks | lib/wisper/sidekiq/config.rb:25 | `uniq!` never lengthens the array, and it keeps the length iff the input had no duplicate (when `uniq!` answers `nil`) |
| RubyArray.UniqOfNoDups | lib/wisper/sidekiq/config.rb:25 | a duplicate-free array is left unchanged |
| RubyArray.UniqIdempotent | lib/wisper/sidekiq/config.rb:25 | removing duplicates twice equals removing them once |
| RubyArray.UniqKeepsFirstOccurrence | lib/wisper/sidekiq/config.rb:25 | the survivors appear in the order of their first occurrence in the input |
| RubyArray.UniqAppend | lib/wisper/sidekiq/config.rb:23-25 | deduplicating `a + b` gives deduplicated `a`, then the deduplicated elements of `b` not in `a` |
| RubyArray.UniqOfUniqAppend | lib/wisper/sidekiq/config.rb:23-25 | deduplicating a prefix first does not change the final result |
| SidekiqConfig.Registered | lib/wisper/sidekiq/config.rb:21-26 | the allow-list after a registration holds only single types (no lists) and has no duplicates |
| SidekiqConfig.RegisteredMembers | lib/wisper/sidekiq/config.rb:21-26 | after a registration a type is allowed iff it was allowed before or occurs, at any depth, among the arguments: registration never drops anything |
| SidekiqConfig.RegisteredKeepsOrder | lib/wisper/sidekiq/config.rb:23-25 | the old allow-list stays in front in its order, followed by the new types in argument order, first occurrence only |
| SidekiqConfig.RegisteredNothingNew | lib/wisper/sidekiq/config.rb:23-25 | registering only types that are already allowed, or no types at all, leaves the allow-list unchanged as a sequence |
| SidekiqConfig.RegisteredSequentially | lib/wisper/sidekiq/config.rb:21-26 | registering `a` then `b` equals registering `a + b` in one call |
| SidekiqConfig.RegisteredTwice | lib/wisper/sidekiq/config.rb:23-25 | registering the same types twice equals registering them once |
| SidekiqConfig.Config.constructor | lib/wisper/sidekiq/config.rb:5-11 | at process start nothing is registered, the switch is off, and the allow-list reads `[Class, Symbol, Time]` |
| SidekiqConfig.Config.UseUnsafeYaml | lib/wisper/sidekiq/config.rb:13-15 | the switch is on afterwards, and the allow-list and its registration state are untouched |
| SidekiqConfig.Config.SafeTypes | lib/wisper/sidekiq/config.rb:17-19 | answers the current allow-list, which is exactly `[Class, Symbol, Time]` before any registration; the lazy default assignment stores the frozen default and changes nothing observable, the switch included |
| SidekiqConfig.Config.RegisterSafeTypes | lib/wisper/sidekiq/config.rb:21-26 | the new allow-list is `Registered(old allow-list, types)`; it is no longer the frozen default; the switch is untouched; the answer is `nil` iff the flattened list had no duplicate, else the new array |
| SidekiqConfig.Config.FlattenInPlace | lib/wisper/sidekiq/config.rb:24 | `flatten!` replaces `@safe_types` by its flattening; it is only called on a private copy, never on the frozen default |
| SidekiqConfig.Config.UniqInPlace | lib/wisper/sidekiq/config.rb:25 | `uniq!` replaces `@safe_types` by its deduplication and answers `nil` iff nothing was removed; never called on the frozen default |
| PublisherExtensions.Subscribe | lib/wisper/sidekiq/publisher_extensions.rb:6-9 | subscribing registers the listener: every type in it is allowed afterwards, the allow-list follows `Registered` and is no longer the frozen default, and the switch is untouched |

## Left out

- `SidekiqBroadcaster#broadcast` and `SidekiqBroadcaster.register`
  (lib/wisper/sidekiq.rb) are left out. Each is a one-line delegation to
  Sidekiq's `delay` extension or to Wisper's configuration.
- `Wisper::Sidekiq.configure` is left out. It only yields the `Config` class to
  a block.
- The `subscribe` call that the hook passes on with `super` is left out. It
  belongs to Wisper, not to this repository. The `Module#prepend` wiring into
  Wisper's three subscribe entry points is left out too.
- Queue placement, `perform_in` delays, debounce keys and ids, and the worker's
  execute-or-skip check are left out. The tests expect them, but the library
  code here does not implement them.
- The YAML loading that reads the allow-list and the switch is left out. It is a
  foreign library call.
- Ruby types are modelled as the three default classes plus objects identified
  by name. `Array#uniq` compares with `hash`/`eql?`, which the model treats as
  plain equality.
- `Flatten` does not model two Ruby behaviours. It ignores objects that
  `flatten` would splice through `to_ary`. It also ignores the `ArgumentError`
  that `flatten` raises on a recursive array. Model values are finite trees.
- `@use_unsafe_yaml` is `nil` before `use_unsafe_yaml!` is called. The model
  stores it as `false`, and both are falsy in Ruby.
- Concurrency is not modelled. Each method runs as one atomic step.
  `register_safe_types` reads `@safe_types`, builds a new array and writes it
  back, all without a lock. In Ruby, two threads that register at once (two
  concurrent `subscribe` calls, for example) can read the same array, and the
  later write then loses the earlier registration. So `RegisteredMembers`
  ("registration never drops anything") holds only for calls that run one
  after another.
- Aliasing beyond the frozen default is not modelled. After a registration,
  `safe_types` hands out the live array, and a caller could mutate it directly.
  The model keeps the allow-list as a value, so it cannot capture such external
  mutation.
