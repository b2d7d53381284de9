/** The two sides of a binary tree. */
module Sides {
  datatype Dir = L | R {
    function Opp(): Dir { if L? then R else L }
  }
}
