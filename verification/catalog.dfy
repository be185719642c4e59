/** The catalog data the core reads: a scene record as the search endpoint returns it. */
module Catalog {

  /** A catalog item: its identifier and its assets, each a band name mapped to the
      href of that band's file. Dates, cloud cover and the collection name are display
      only and are not part of the model. */
  datatype Item = Item(id: string, assets: map<string, string>)
}
