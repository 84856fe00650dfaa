/** The menu records the dashboard works on.

    A catalog entry is a JSON object whose fields may be missing, so every
    field is optional. A daily-log entry is the same record with `quantity`
    set, which is what the object spread `{...food, quantity, ...}` produces. */
module Catalog {

  datatype Option<+T> = None | Some(value: T)

  datatype MenuItem = MenuItem(
    name: Option<string>,
    hall: Option<string>,
    meal: Option<string>,
    station: Option<string>,
    servingSize: Option<string>,
    calories: Option<string>,
    protein: Option<string>,
    carbs: Option<string>,
    totalFat: Option<string>,
    quantity: Option<nat>)

  /** JavaScript truthiness of an optional string field: present and non-empty. */
  predicate Truthy(field: Option<string>) {
    field.Some? && field.value != ""
  }
}
