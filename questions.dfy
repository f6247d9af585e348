/** The two kinds of question a feedback form carries (`"DESCRIPTIVE" | "RATING"`). */
module Questions {

  datatype QuestionType = Descriptive | Rating
}
