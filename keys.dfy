/** The keyboard bindings of `handleKeyDown` and `handleKeyUp`
    (tetris.js:525-570): which `event.key` values do what. */
module Keys {

  /** What a key does while the game runs unpaused. */
  datatype Command = Left | Right | Down | Clockwise | CounterClockwise | Drop | HoldSwap | Ignored

  /** The `switch (event.key)` of `handleKeyDown`. */
  function CommandFor(key: string): (c: Command) {
    match key
    case "ArrowLeft" => Left
    case "ArrowRight" => Right
    case "ArrowDown" => Down
    case "ArrowUp" => Clockwise
    case "x" => Clockwise
    case "X" => Clockwise
    case "z" => CounterClockwise
    case "Z" => CounterClockwise
    case " " => Drop
    case "Shift" => HoldSwap
    case "c" => HoldSwap
    case "C" => HoldSwap
    case _ => Ignored
  }

  /** The keys bound to each command, listed per command. */
  function KeysFor(c: Command): set<string> {
    match c
    case Left => {"ArrowLeft"}
    case Right => {"ArrowRight"}
    case Down => {"ArrowDown"}
    case Clockwise => {"ArrowUp", "x", "X"}
    case CounterClockwise => {"z", "Z"}
    case Drop => {" "}
    case HoldSwap => {"Shift", "c", "C"}
    case Ignored => {}
  }

  /** The switch and the per-command key lists agree: a key selects a
      command exactly when it is listed for it, and a key listed nowhere is
      ignored. */
  lemma CommandForKeys(key: string, c: Command)
    ensures c != Ignored ==> (CommandFor(key) == c <==> key in KeysFor(c))
    ensures CommandFor(key) == Ignored <==> forall d: Command :: key !in KeysFor(d)
  {
    if CommandFor(key) == Ignored {
      forall d: Command ensures key !in KeysFor(d) {
      }
    } else {
      assert key in KeysFor(CommandFor(key));
    }
  }

  /** `String.prototype.toLowerCase` on the letters A to Z. */
  function ToLower(s: string): (r: string)
    ensures |r| == |s|
    ensures forall i :: 0 <= i < |s| ==>
      r[i] == (if 'A' <= s[i] <= 'Z' then (s[i] - 'A' + 'a') as char else s[i])
  {
    if s == [] then []
    else [if 'A' <= s[0] <= 'Z' then (s[0] - 'A' + 'a') as char else s[0]] + ToLower(s[1..])
  }

  /** `event.key.toLowerCase() === "p"`. */
  predicate IsPauseKey(key: string) {
    ToLower(key) == "p"
  }

  /** Exactly the keys "p" and "P" toggle the pause. */
  lemma PauseKeys(key: string)
    ensures IsPauseKey(key) <==> key == "p" || key == "P"
  {
  }

  /** The pause keys have no other binding. */
  lemma PauseKeysIgnored(key: string)
    requires IsPauseKey(key)
    ensures CommandFor(key) == Ignored
  {
    PauseKeys(key);
  }
}
