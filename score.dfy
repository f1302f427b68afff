/** One best time: a level index, the difficulty it was played at, and the time taken. */
module Scores {
  class Score {
    const level: int
    const difficulty: int
    var time: int

    constructor(level: int, difficulty: int, time: int)
      ensures this.level == level && this.difficulty == difficulty && this.time == time
    {
      this.level := level;
      this.difficulty := difficulty;
      this.time := time;
    }

    method SetTime(time: int)
      modifies this`time
      ensures this.time == time
    {
      this.time := time;
    }
  }
}
