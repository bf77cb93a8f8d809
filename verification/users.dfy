/** The person records the dropdown lists: the User interface and its nested
    shapes. Only `name`, `suffix` and `title` are read by the model;
    the other fields are carried along unchanged. */
module Users {

  datatype Option<+T> = None | Some(value: T)

  datatype Geo = Geo(lat: string, lng: string)

  datatype Address = Address(street: string, suite: string, city: string, zipcode: string, geo: Geo)

  datatype Company = Company(name: string, catchPhrase: string, bs: string)

  /** One fetched person. `suffix` and `title` are optional: `None` stands for
      an absent (undefined) property. */
  datatype User = User(
    id: int,
    name: string,
    username: string,
    email: string,
    address: Address,
    phone: string,
    website: string,
    company: Company,
    suffix: Option<string>,
    title: Option<string>)

  /** The text of an optional string, "" when absent. A JavaScript string is
      truthy exactly when this text is non-empty. */
  function TextOf(o: Option<string>): string {
    match o
    case None => ""
    case Some(s) => s
  }
}
