/**
 * The records the engine works on: catalog hobbies, step-up hobbies, log entries and the
 * diagnosis answer. Catalogs are read-only input; every record is an immutable value.
 */
module Types {

  type Tag = string

  datatype EnergyLevel = Low | Medium | High

  /** Where a hobby is done: the source's strings "家" (home), "外" (outside) and "どこでも" (anywhere). */
  datatype Location = Home | Outside | Anywhere

  /**
   * The seven hobby categories, named after the source's literals:
   * 眺める watch, 聴く listen, 作る make, 動く move, 学ぶ learn, 整える tidy, 遊ぶ play.
   */
  datatype Category = Watch | Listen | Make | Move | Learn | Tidy | Play

  /** How the user felt about a try, from worst to best: `meh`, `good`, `great`. */
  datatype Rating = Meh | Good | Great

  /** A catalog hobby (`YuruHobby`): a small, low-effort activity. */
  datatype Hobby = Hobby(
    id: int,
    name: string,
    emoji: string,
    tags: seq<Tag>,
    category: Category,
    time: int,
    cost: int,
    location: Location,
    energy: EnergyLevel,
    indoor: bool,
    tryStep: string)

  /** A second-tier hobby; `matchTags` are the tags scored against the user's top tags. */
  datatype StepUpHobby = StepUpHobby(
    id: int,
    name: string,
    emoji: string,
    tags: seq<Tag>,
    matchTags: seq<Tag>,
    description: string,
    startCost: string,
    startGuide: string,
    timeCommit: string,
    nextSteps: seq<string>)

  /** One try of a hobby; `hobbyId` may name a hobby that is no longer in the catalog. */
  datatype LogEntry = LogEntry(hobbyId: int, rating: Rating, loggedAt: string)

  datatype ActivityType = Passive | Active

  /** The three answers of the mood questionnaire. */
  datatype DiagnosisAnswer = DiagnosisAnswer(energy: EnergyLevel, goOut: bool, activityType: ActivityType)
}
