/** The status codes and JSON `message` texts the API answers with (server/server.js). */
module Http {

  datatype Response = Response(status: nat, message: string)

  // Shared by every handler: the `catch` branch.
  const ServerError := Response(500, "Server error")

  // authenticateToken
  const NoTokenProvided := Response(401, "No token provided")
  const InvalidToken := Response(403, "Invalid or expired token")

  // /api/signup
  const UserExists := Response(401, "User already exists")
  const UserCreated := Response(201, "User created successfully")

  // /api/add-course
  const InstructorMissing := Response(400, "Instructor does not exist")
  const CourseCreated := Response(201, "Course created successfully")

  // Course lookups in every course handler
  const CourseNotFound := Response(404, "Course not found")

  // /api/delete-course
  const CourseDeleted := Response(200, "Course deleted successfully")

  // /api/remove-student
  const StudentNotInCourse := Response(404, "Student not found in the course")
  const StudentRemoved := Response(200, "Student removed successfully")

  // /api/enroll-student
  const StudentNotFound := Response(404, "Student not found")
  const StudentAlreadyEnrolled := Response(200, "Student is already enrolled in the course")
  const StudentEnrolled := Response(200, "Student enrolled successfully")

  // /api/student-enrollment
  const AlreadyEnrolled := Response(200, "You are already enrolled in the course")
  const CourseFull := Response(200, "Course is full")
  const SelfEnrolled := Response(200, "You have been enrolled successfully!")

  // /api/add-feedback
  const NotEnrolled := Response(403, "You are not enrolled in this course")
  const FeedbackAdded := Response(200, "Feedback added successfully")
}
