/** Result values replacing the exceptions of the game (ShipException,
    ValueError and QuitGame). */
module Outcomes {
  import opened Geometry

  datatype Option<T> = None | Some(value: T)

  /** Every recoverable failure of the game, plus the quit signal. */
  datatype Error =
    | BadShipType        // Ship(size, type) with a type other than 0 or 1
    | OffBoard           // Ship.on_board
    | Adjacent           // Ship.in_area
    | WrongCount         // wrong number of numbers typed at a prompt
    | NotANumber         // a typed token that int() refuses
    | XOutOfRange        // HumanPlayer.make_hit, column check
    | YOutOfRange        // HumanPlayer.make_hit, row check
    | AlreadyFired(at: Cell)  // Player.get_hit on a cell fired at before
    | QuitGame           // the sentinel input "0"

  datatype Result<T> = Ok(value: T) | Err(error: Error)

  /** The result of a check that returns nothing on success. */
  datatype Outcome = Pass | Fail(error: Error)
}
