/** Telegram user ids, the key of both the report and the reminder table. */
module Users {
  type UserId = int
}
