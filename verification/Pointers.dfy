/** C pointers as numbers: objects and nodes are numbered from 0. */
module Pointers {
  const NULL := -1
}
