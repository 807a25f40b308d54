/** The data a game is saved and loaded as: the cell values in row-major order and the counters. */
module GameModels {

  class GameModel {
    /** The row-major list of the 16 cell values. */
    var Values: array<int>
    /** The value a merge has to reach to win; 2048 at first. */
    var Goal: int
    var Moves: int
    var Score: int
    var IsWon: bool
    /** Play time in ticks of 100 ns. */
    var GameTime: int

    constructor()
      ensures fresh(Values) && Values.Length == 16
      ensures forall k :: 0 <= k < Values.Length ==> Values[k] == 0
      ensures Goal == 2048 && Moves == 0 && Score == 0 && !IsWon && GameTime == 0
    {
      Values := new int[16](_ => 0);
      Goal := 2048;
      Moves := 0;
      Score := 0;
      IsWon := false;
      GameTime := 0;
    }

    /** Sets every value to 0, in the same array. */
    method EmptyValues()
      modifies Values
      ensures forall k :: 0 <= k < Values.Length ==> Values[k] == 0
    {
      var k := 0;
      while k < Values.Length
        invariant 0 <= k <= Values.Length
        invariant forall j :: 0 <= j < k ==> Values[j] == 0
      {
        Values[k] := 0;
        k := k + 1;
      }
    }
  }
}
