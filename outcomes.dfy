/** The outcome of the operations that throw `ArgumentException` in the C# code. */
module Outcomes {

  /** Why an operation refused its arguments: one constructor per throw site. */
  datatype ArgumentError =
    | EmptyAlphabet              // ThrowIfNullOrEmpty on the alphabet
    | EmptyWiring                // ThrowIfNullOrEmpty on a rotor or reflector wiring
    | EmptyKey                   // ThrowIfNullOrEmpty on a Vigenère key
    | LengthMismatch             // alphabet and wiring lengths differ
    | WiringOutsideAlphabet
    | NotchOutsideAlphabet
    | RingOutsideAlphabet
    | StartOutsideAlphabet
    | KeyOutsideAlphabet
    | RotorCount                 // a machine needs exactly three rotors
    | RotorAlphabetMismatch
    | ReflectorAlphabetMismatch
    | SelfPlug                   // a plug from a character to itself
    | PlugInUse                  // one end of the plug is already plugged

  datatype Option<+T> = None | Some(value: T)

  /** Either the value built, or the reason the C# code throws instead. */
  datatype Result<+T> = Ok(value: T) | Err(error: ArgumentError)
}
